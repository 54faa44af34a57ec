/** The transcript text of `extract_transcript_details` and the truthiness
    guard that decides whether a summary is requested.

    The transcript service itself is not modelled: what it returned is an
    input, the list of segment texts in the order received, or `None` when
    the call raised (the source catches every exception there and returns
    `None`). */
module Transcript {
  import opened Options

  /** The separator of `" ".join(...)`. */
  const Separator := ' '

  /** Total number of characters in the segment texts. */
  function TotalLength(texts: seq<string>): nat
  {
    if |texts| == 0 then 0 else |texts[0]| + TotalLength(texts[1..])
  }

  /** `" ".join(texts)`: the segment texts in their original order with one
      space between neighbours and none at either end. */
  function Join(texts: seq<string>): (s: string)
    ensures |texts| > 0 ==> |s| == TotalLength(texts) + |texts| - 1
    ensures |texts| > 0 ==> s[..|texts[0]|] == texts[0]
  {
    if |texts| == 0 then ""
    else if |texts| == 1 then texts[0]
    else texts[0] + [Separator] + Join(texts[1..])
  }

  /** Splitting on every single space, Python's `str.split(" ")`: the inverse
      of `Join` on texts without spaces. */
  function Split(s: string): (parts: seq<string>)
    ensures |parts| >= 1
    decreases |s|
  {
    if |s| == 0 then [""]
    else
      var rest := Split(s[1..]);
      if s[0] == Separator then [""] + rest
      else [[s[0]] + rest[0]] + rest[1..]
  }

  /** `extract_transcript_details`: the joined text when the fetch returned
      segments, `None` when it raised. */
  function TranscriptText(fetched: Option<seq<string>>): (t: Option<string>)
    ensures t.Some? <==> fetched.Some?
  {
    match fetched
    case None => None
    case Some(texts) => Some(Join(texts))
  }

  // ---------------------------------------------------------------------
  // Lemmas about the join

  /** Joining two non-empty lists puts exactly one space between the two joins. */
  lemma {:induction false} JoinAppend(a: seq<string>, b: seq<string>)
    requires |a| > 0 && |b| > 0
    ensures Join(a + b) == Join(a) + [Separator] + Join(b)
    decreases |a|
  {
    if |a| == 1 {
      assert (a + b)[1..] == b;
    } else {
      assert (a + b)[1..] == a[1..] + b;
      JoinAppend(a[1..], b);
    }
  }

  /** The joined text is empty exactly when there is no segment at all or a
      single empty one; two empty segments already give a lone space. */
  lemma JoinEmptyIff(texts: seq<string>)
    ensures Join(texts) == "" <==> texts == [] || texts == [""]
  {
  }

  /** Splitting a text that starts with a space-free word: the word is glued
      to the first part of the rest. */
  lemma {:induction false} SplitWord(w: string, t: string)
    requires Separator !in w
    ensures Split(w + t) == [w + Split(t)[0]] + Split(t)[1..]
    decreases |w|
  {
    var st := Split(t);
    if |w| == 0 {
      assert w + t == t;
      assert w + st[0] == st[0];
      assert st == [st[0]] + st[1..];
    } else {
      var u := w + t;
      assert u[0] == w[0] && u[0] != Separator;
      assert u[1..] == w[1..] + t;
      SplitWord(w[1..], t);
      var r := Split(u[1..]);
      assert r == [w[1..] + st[0]] + st[1..];
      assert Split(u) == [[u[0]] + r[0]] + r[1..];
      assert [w[0]] + (w[1..] + st[0]) == w + st[0];
    }
  }

  /** A leading space closes an empty first part. */
  lemma SplitSpace(t: string)
    ensures Split([Separator] + t) == [""] + Split(t)
  {
  }

  /** Round trip: splitting the joined text on spaces gives back the segments,
      in order, when no segment contains a space. */
  lemma {:induction false} SplitJoin(texts: seq<string>)
    requires |texts| > 0
    requires forall i :: 0 <= i < |texts| ==> Separator !in texts[i]
    ensures Split(Join(texts)) == texts
    decreases |texts|
  {
    if |texts| == 1 {
      SplitWord(texts[0], "");
      assert texts[0] + "" == texts[0];
    } else {
      var rest := Join(texts[1..]);
      SplitJoin(texts[1..]);
      SplitSpace(rest);
      assert Join(texts) == texts[0] + ([Separator] + rest);
      SplitWord(texts[0], [Separator] + rest);
      assert texts[0] + "" == texts[0];
      assert texts == [texts[0]] + texts[1..];
    }
  }

  /** The worked example: two segments become one line. */
  lemma JoinExample()
    ensures Join(["Hello", "world"]) == "Hello world"
  {
  }

  /** The guard lets a fetched transcript through exactly when its joined
      text is non-empty: never after a failed fetch, never for an empty
      segment list or a single empty segment, and always for two or more
      segments, even empty ones. */
  lemma GuardIff(fetched: Option<seq<string>>)
    ensures Truthy(TranscriptText(fetched)) <==>
              fetched.Some? && (|fetched.value| >= 2 || (|fetched.value| == 1 && fetched.value[0] != ""))
  {
  }
}
