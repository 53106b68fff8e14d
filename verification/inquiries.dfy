/*******************************************************************************
 *  Inquiries: a message from an Inquirer about a person being sought, and the
 *  selection of an existing inquirer by id.
 *******************************************************************************/

module Inquiries {
  import opened Wrappers
  import opened JavaText
  import opened Persons

  /** The inquiry's message is never null: the constructor and the edit refuse it. */
  datatype Inquiry = Inquiry(inquirer: Inquirer, inquiryMessage: string, id: int, seekingId: int)

  /** `new Inquiry(inquirer, message)`: a null inquirer is reported before a null
      message; id and seeking id start at 0. */
  function NewInquiry(inquirer: Option<Inquirer>, message: JStr): (r: Result<Inquiry, Fault>)
    ensures inquirer.None? ==> r == Failure(NullPointer("Inquirer cannot be null"))
    ensures inquirer.Some? && message.None? ==> r == Failure(NullPointer("Message cannot be null"))
    ensures r.Success? <==> inquirer.Some? && message.Some?
    ensures r.Success? ==> r.value.inquirer == inquirer.value && r.value.inquiryMessage == message.value
                           && r.value.id == 0 && r.value.seekingId == 0
  {
    if inquirer.None? then Failure(NullPointer("Inquirer cannot be null"))
    else if message.None? then Failure(NullPointer("Message cannot be null"))
    else Success(Inquiry(inquirer.value, message.value, 0, 0))
  }

  /** `setId`. */
  function SetInquiryId(q: Inquiry, id: int): (r: Inquiry)
    ensures r.id == id && r.(id := q.id) == q
  {
    q.(id := id)
  }

  /** `setSeekingId`. */
  function SetSeekingId(q: Inquiry, seekingId: int): (r: Inquiry)
    ensures r.seekingId == seekingId && r.(seekingId := q.seekingId) == q
  {
    q.(seekingId := seekingId)
  }

  /** The in-memory part of `editInquiry`: new text replaces both the inquiry's message
      and its inquirer's message; no text (input abandoned) changes nothing. */
  function EditInquiry(q: Inquiry, newDetails: JStr): (r: Inquiry)
    ensures newDetails.None? ==> r == q
    ensures newDetails.Some? ==> r.inquiryMessage == newDetails.value && r.inquirer.kind.inquiryMessage == newDetails
    ensures r.id == q.id && r.seekingId == q.seekingId
    ensures r.inquirer.(kind := q.inquirer.kind) == q.inquirer && r.inquirer.kind.isVictim == q.inquirer.kind.isVictim
  {
    match newDetails
    case None => q
    case Some(text) => q.(inquiryMessage := text, inquirer := SetInquiryMessage(q.inquirer, newDetails))
  }

  const InquiryPrefix := "Inquiry{inquirer="

  /** `toString()`: the inquirer's own rendering, the message, the seeking id. */
  function InquiryToString(q: Inquiry): (r: string)
    ensures StartsWith(r, InquiryPrefix + InquirerPrefix)
  {
    InquiryPrefix + (ToString(q.inquirer) + InquiryTail(q))
  }

  function InquiryTail(q: Inquiry): string {
    ", inquiryMessage='" + q.inquiryMessage + "', seekingId=" + IntToString(q.seekingId) + "}"
  }

  /** What follows the last occurrence of `c`, or the whole text when there is none. */
  function TextAfterLast(s: string, c: char): (r: string)
    ensures |r| <= |s|
  {
    if |s| == 0 || s[|s| - 1] == c then "" else TextAfterLast(s[..|s| - 1], c) + [s[|s| - 1]]
  }

  lemma {:induction false} TextAfterLastFinds(a: string, c: char, b: string)
    requires c !in b
    ensures TextAfterLast(a + [c] + b, c) == b
    decreases |b|
  {
    var s := a + [c] + b;
    if |b| == 0 {
      assert s[|s| - 1] == c;
    } else {
      assert s[..|s| - 1] == a + [c] + b[..|b| - 1];
      TextAfterLastFinds(a, c, b[..|b| - 1]);
      assert b[..|b| - 1] + [b[|b| - 1]] == b;
    }
  }

  /** A rendered number holds only digits and a leading minus sign. */
  lemma IntToStringHasNoEquals(n: int)
    ensures '=' !in IntToString(n)
  {
    var num := IntToString(n);
    forall i | 0 <= i < |num| ensures num[i] != '=' {
      if n < 0 && i == 0 {
      } else if n < 0 {
        assert num[i] == NatToString(-n)[i - 1];
      }
    }
  }

  /** The seeking id reads back from the text after the last '=' (less the closing brace). */
  lemma SeekingIdReadsBack(q: Inquiry)
    ensures var tail := TextAfterLast(InquiryToString(q), '=');
      0 < |tail| && ParseDecimal(tail[..|tail| - 1]) == Some(q.seekingId)
  {
    var num := IntToString(q.seekingId);
    var mid := ", inquiryMessage='" + q.inquiryMessage + "', seekingId";
    assert InquiryTail(q) == mid + ("=" + (num + "}"));
    IntToStringHasNoEquals(q.seekingId);
    AfterLastOfJoin(InquiryPrefix, ToString(q.inquirer), mid, '=', num + "}");
    assert (num + "}")[..|num|] == num;
    IntToStringRoundTrip(q.seekingId);
  }

  /** A seeking id set with `setSeekingId` is the one `toString` shows. */
  lemma SetSeekingIdShows(q: Inquiry, seekingId: int)
    ensures var tail := TextAfterLast(InquiryToString(SetSeekingId(q, seekingId)), '=');
      0 < |tail| && ParseDecimal(tail[..|tail| - 1]) == Some(seekingId)
  {
    SeekingIdReadsBack(SetSeekingId(q, seekingId));
  }

  lemma AfterLastOfJoin(p: string, i: string, a: string, c: char, b: string)
    requires c !in b
    ensures TextAfterLast(p + (i + (a + ([c] + b))), c) == b
  {
    assert p + (i + (a + ([c] + b))) == (p + i + a) + [c] + b;
    TextAfterLastFinds(p + i + a, c, b);
  }

  /** The inquirer's id reads back right after the opening of the rendering. */
  lemma InquirerOfInquiryReadsBack(q: Inquiry)
    ensures ParseDecimal(NumericPrefix(InquiryToString(q)[|InquiryPrefix| + |InquirerPrefix|..])) == Some(q.inquirer.id)
  {
    var num := IntToString(q.inquirer.id);
    InquirerRendering(q.inquirer);
    DropTwoPrefixes(InquiryPrefix, InquirerPrefix, num + InquirerTail(q.inquirer), InquiryTail(q));
    assert (num + InquirerTail(q.inquirer)) + InquiryTail(q) == num + (InquirerTail(q.inquirer) + InquiryTail(q));
    IntToStringReadsBack(q.inquirer.id, InquirerTail(q.inquirer) + InquiryTail(q));
  }

  lemma DropTwoPrefixes(a: string, b: string, c: string, d: string)
    ensures (a + (b + c + d))[|a| + |b|..] == c + d
  {
    assert a + (b + c + d) == (a + b) + (c + d);
  }

  lemma InquirerRendering(p: Inquirer)
    ensures ToString(p) == InquirerPrefix + (IntToString(p.id) + InquirerTail(p))
  {
  }

  /** An accepted edit shows in `toString`: the new message stands right before the
      seeking id, which still reads back as before. */
  lemma EditInquiryShows(q: Inquiry, message: string)
    ensures EndsWith(InquiryToString(EditInquiry(q, Some(message))),
                     message + "', seekingId=" + IntToString(q.seekingId) + "}")
    ensures var tail := TextAfterLast(InquiryToString(EditInquiry(q, Some(message))), '=');
      0 < |tail| && ParseDecimal(tail[..|tail| - 1]) == Some(q.seekingId)
  {
    var r := EditInquiry(q, Some(message));
    var t := message + "', seekingId=" + IntToString(q.seekingId) + "}";
    var head := InquiryPrefix + ToString(r.inquirer) + ", inquiryMessage='";
    assert InquiryTail(r) == ", inquiryMessage='" + t;
    assert InquiryToString(r) == head + t;
    assert (head + t)[|head|..] == t;
    SeekingIdReadsBack(r);
  }

  /** Editing twice with the same answer is editing once. */
  lemma EditInquiryIdempotent(q: Inquiry, newDetails: JStr)
    ensures EditInquiry(EditInquiry(q, newDetails), newDetails) == EditInquiry(q, newDetails)
  {
  }

  /** The three ways `selectInquirer` can end. */
  datatype Selection = Selected(inquirer: Inquirer) | NotAnInquirer | CreateNew

  /** `selectInquirer`: with nobody registered the user is sent to create an inquirer;
      otherwise the typed id must name a person who is an Inquirer. `choice` is `None`
      when the input is abandoned or not a number. */
  function SelectInquirer(persons: map<int, Person>, choice: Option<int>): (r: Selection)
    ensures r.CreateNew? <==> |persons| == 0
    ensures r.Selected? <==> 0 < |persons| && choice.Some? && choice.value in persons && persons[choice.value].kind.InquirerOf?
    ensures r.Selected? ==> r.inquirer == persons[choice.value]
  {
    if |persons| == 0 then CreateNew
    else if choice.Some? && choice.value in persons && persons[choice.value].kind.InquirerOf? then Selected(persons[choice.value])
    else NotAnInquirer
  }
}
