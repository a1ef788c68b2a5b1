/**
  The feedback widget: a dialog whose message is trimmed and prepended to the
  list of feedback entries (blank messages are refused), the
  `signature-feedbacks` storage entry that mirrors the list, and the wall that
  shows the most recent entries.
 */
module Feedback {
  import opened Optional

  /** One feedback entry; `id` and `timestamp` both come from the clock at submission. */
  datatype Entry = Entry(id: int, message: string, timestamp: int)

  /** The characters JavaScript's String.prototype.trim removes: white space and line terminators. */
  predicate IsSpace(c: char) {
    || c == ' ' || c == '\t' || c == '\n' || c == '\r' || c == '\U{000B}' || c == '\U{000C}'
    || c == '\U{00A0}' || c == '\U{1680}' || ('\U{2000}' <= c <= '\U{200A}')
    || c == '\U{2028}' || c == '\U{2029}' || c == '\U{202F}' || c == '\U{205F}'
    || c == '\U{3000}' || c == '\U{FEFF}'
  }

  predicate Blank(s: string) {
    forall i :: 0 <= i < |s| ==> IsSpace(s[i])
  }

  /** `s` without its leading white space. */
  function TrimStart(s: string): (r: string)
    ensures |r| <= |s| && r == s[|s| - |r|..]
    ensures Blank(s[..|s| - |r|])
    ensures r != [] ==> !IsSpace(r[0])
  {
    if s != [] && IsSpace(s[0]) then
      var r := TrimStart(s[1..]);
      assert s[1..][..|s| - 1 - |r|] == s[1..|s| - |r|];
      r
    else s
  }

  /** `s` without its trailing white space. */
  function TrimEnd(s: string): (r: string)
    ensures |r| <= |s| && r == s[..|r|]
    ensures Blank(s[|r|..])
    ensures r != [] ==> !IsSpace(r[|r| - 1])
  {
    if s != [] && IsSpace(s[|s| - 1]) then
      var r := TrimEnd(s[..|s| - 1]);
      assert s[|r|..] == s[..|s| - 1][|r|..] + [s[|s| - 1]];
      r
    else s
  }

  function Trim(s: string): string {
    TrimEnd(TrimStart(s))
  }

  /**
    The trim of `s` is the part of `s` between its leading and its trailing
    white space: a slice of `s` that neither starts nor ends with white space,
    with only white space cut off on either side.
   */
  lemma TrimIsSlice(s: string)
    ensures exists i, j {:trigger s[i..j]} ::
      (0 <= i <= j <= |s| && Trim(s) == s[i..j] && Blank(s[..i]) && Blank(s[j..]))
    ensures Trim(s) != [] ==> !IsSpace(Trim(s)[0]) && !IsSpace(Trim(s)[|Trim(s)| - 1])
  {
    var t := TrimStart(s);
    var r := TrimEnd(t);
    var i := |s| - |t|;
    var j := i + |r|;
    assert t[|r|..] == s[j..];
    assert r == s[i..j];
  }

  /** A message is refused exactly when it is white space only. */
  lemma TrimEmptyIffBlank(s: string)
    ensures Trim(s) == [] <==> Blank(s)
  {
  }

  /** Trimming twice is trimming once. */
  lemma TrimIdempotent(s: string)
    ensures Trim(Trim(s)) == Trim(s)
  {
  }

  /** The submission rule: refuse a blank message, otherwise prepend an entry with the trimmed message. */
  function Post(feedbacks: seq<Entry>, message: string, now: int): (r: Option<seq<Entry>>)
    ensures r.None? <==> Blank(message)
    ensures r.Some? ==> |r.value| == |feedbacks| + 1 && r.value[1..] == feedbacks
    ensures r.Some? ==> r.value[0] == Entry(now, Trim(message), now) && r.value[0].message != []
  {
    TrimEmptyIffBlank(message);
    if Trim(message) == [] then None else Some([Entry(now, Trim(message), now)] + feedbacks)
  }

  const WallSize: nat := 6

  /** The feedback wall: hidden when there is no entry, else the first six, the most recent. */
  function Wall(feedbacks: seq<Entry>): (r: Option<seq<Entry>>)
    ensures r.None? <==> feedbacks == []
    ensures r.Some? ==> |r.value| == (if |feedbacks| < WallSize then |feedbacks| else WallSize)
    ensures r.Some? ==> r.value == feedbacks[..|r.value|]
  {
    if |feedbacks| > 0 then Some(feedbacks[..if |feedbacks| < WallSize then |feedbacks| else WallSize])
    else None
  }

  /** After a submission the wall leads with the new entry, followed by what it showed before, minus its oldest. */
  lemma WallAfterPost(feedbacks: seq<Entry>, message: string, now: int)
    requires !Blank(message)
    ensures var r := Post(feedbacks, message, now).value;
      Wall(r).Some? && Wall(r).value[0] == r[0]
      && Wall(r).value[1..] == (if feedbacks == [] then [] else Wall(feedbacks).value[..|Wall(r).value| - 1])
  {
  }

  class FeedbackSystem {
    var isOpen: bool
    var message: string
    var feedbacks: seq<Entry>
    var showThankYou: bool
    /** The `signature-feedbacks` storage entry; None when the key is absent. */
    var stored: Option<seq<Entry>>

    /** Storage mirrors the list, or is absent while the list is empty. */
    ghost predicate Valid()
      reads this
    {
      stored == Some(feedbacks) || (stored == None && feedbacks == [])
    }

    /** Mounting: a closed dialog, an empty message, then the saved entries are loaded. */
    constructor (stored: Option<seq<Entry>>)
      ensures Valid()
      ensures this.stored == stored && feedbacks == (if stored.Some? then stored.value else [])
      ensures !isOpen && message == [] && !showThankYou
    {
      isOpen := false;
      message := [];
      showThankYou := false;
      this.stored := stored;
      feedbacks := if stored.Some? then stored.value else [];
    }

    method Open()
      modifies this
      ensures isOpen && message == old(message) && feedbacks == old(feedbacks)
      ensures showThankYou == old(showThankYou) && stored == old(stored)
    {
      isOpen := true;
    }

    method Close()
      modifies this
      ensures !isOpen && message == old(message) && feedbacks == old(feedbacks)
      ensures showThankYou == old(showThankYou) && stored == old(stored)
    {
      isOpen := false;
    }

    /** Typing in the text area. */
    method Edit(text: string)
      modifies this
      ensures message == text && isOpen == old(isOpen) && feedbacks == old(feedbacks)
      ensures showThankYou == old(showThankYou) && stored == old(stored)
    {
      message := text;
    }

    /**
      Submit at clock time `now`: a blank message changes nothing; otherwise the
      trimmed message is prepended as a new entry, the list is stored, the
      message is emptied, the dialog closes and the thank-you note shows.
     */
    method Submit(now: int)
      requires Valid()
      modifies this
      ensures Valid()
      ensures Blank(old(message)) ==>
        && feedbacks == old(feedbacks) && stored == old(stored) && message == old(message)
        && isOpen == old(isOpen) && showThankYou == old(showThankYou)
      ensures !Blank(old(message)) ==>
        && feedbacks == [Entry(now, Trim(old(message)), now)] + old(feedbacks)
        && stored == Some(feedbacks)
        && message == [] && !isOpen && showThankYou
    {
      var posted := Post(feedbacks, message, now);
      if posted.None? {
        return;
      }
      feedbacks := posted.value;
      stored := Some(posted.value);
      message := [];
      isOpen := false;
      showThankYou := true;
    }

    /** The thank-you timer firing. */
    method HideThankYou()
      modifies this
      ensures !showThankYou && isOpen == old(isOpen) && message == old(message)
      ensures feedbacks == old(feedbacks) && stored == old(stored)
    {
      showThankYou := false;
    }
  }
}
