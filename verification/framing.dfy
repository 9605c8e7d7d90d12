/**
 The receiver's framing of one received chunk: Python's
 `re.findall('{.*?}', text)`. A frame starts at a `{`, ends at the first `}`
 after it, and may not contain a newline (`.` does not match `\n`); the search
 resumes right after each frame, and text outside frames is dropped.
 */
module Framing {
  import opened Wrappers
  import opened Text

  /** A half-open range `[start, end)` of positions in a chunk. */
  datatype Span = Span(start: nat, end: nat)

  /** A character `.*?` may step over before the closing `}`. */
  predicate Interior(c: char) {
    c != '}' && c != '\n'
  }

  /** `s[a..b]` is a match of `{.*?}` that starts at `a`. */
  predicate IsMatch(s: string, a: nat, b: nat) {
    && a + 2 <= b <= |s|
    && s[a] == '{'
    && s[b - 1] == '}'
    && forall k :: a < k < b - 1 ==> Interior(s[k])
  }

  /** The first position at or after `k` holding a `}` or a newline. */
  function StopFrom(s: string, k: nat): (r: Option<nat>)
    requires k <= |s|
    decreases |s| - k
    ensures r.Some? ==> k <= r.value < |s| && !Interior(s[r.value])
    ensures r.Some? ==> forall j :: k <= j < r.value ==> Interior(s[j])
    ensures r.None? ==> forall j :: k <= j < |s| ==> Interior(s[j])
  {
    if k == |s| then None
    else if !Interior(s[k]) then Some(k)
    else StopFrom(s, k + 1)
  }

  /** The end of the match starting at `a`, if the pattern matches there; it is the only one. */
  function MatchAt(s: string, a: nat): (r: Option<nat>)
    requires a <= |s|
    ensures r.Some? ==> IsMatch(s, a, r.value)
    ensures r.Some? ==> forall b :: IsMatch(s, a, b) ==> b == r.value
    ensures r.None? ==> forall b :: !IsMatch(s, a, b)
  {
    if a < |s| && s[a] == '{' then
      match StopFrom(s, a + 1)
      case Some(j) => if s[j] == '}' then Some(j + 1) else None
      case None => None
    else None
  }

  /** No match of the pattern starts anywhere in `[lo, hi)`. */
  ghost predicate NoMatchIn(s: string, lo: nat, hi: nat) {
    && lo <= hi <= |s|
    && forall p :: lo <= p < hi ==> MatchAt(s, p).None?
  }

  /** Where the search resumes before the `k`-th span: `i` first, then the end of the previous span. */
  function Resume(i: nat, r: seq<Span>, k: nat): nat
    requires k <= |r|
  {
    if k == 0 then i else r[k - 1].end
  }

  /**
   The meaning of `findall` from position `i`: every span is a match, the
   spans come in increasing order, and between them (and after the last)
   no match starts, so each span is the leftmost match left to find.
   */
  ghost predicate IsFindAll(s: string, i: nat, r: seq<Span>) {
    && (forall k :: 0 <= k < |r| ==> IsMatch(s, r[k].start, r[k].end))
    && (forall k {:trigger Resume(i, r, k)} :: 0 <= k < |r| ==> NoMatchIn(s, Resume(i, r, k), r[k].start))
    && NoMatchIn(s, Resume(i, r, |r|), |s|)
  }

  lemma FindAllCons(s: string, i: nat, e: nat, rest: seq<Span>)
    requires IsMatch(s, i, e)
    requires IsFindAll(s, e, rest)
    ensures IsFindAll(s, i, [Span(i, e)] + rest)
  {
    var r := [Span(i, e)] + rest;
    forall k | 0 < k <= |r|
      ensures Resume(i, r, k) == Resume(e, rest, k - 1)
    {
    }
    forall k | 0 <= k < |r|
      ensures IsMatch(s, r[k].start, r[k].end) && NoMatchIn(s, Resume(i, r, k), r[k].start)
    {
      if k > 0 {
        assert r[k] == rest[k - 1];
      }
    }
  }

  lemma FindAllSkip(s: string, i: nat, rest: seq<Span>)
    requires i < |s| && MatchAt(s, i).None?
    requires IsFindAll(s, i + 1, rest)
    ensures IsFindAll(s, i, rest)
  {
    forall k | 0 <= k < |rest|
      ensures NoMatchIn(s, Resume(i, rest, k), rest[k].start)
    {
      assert NoMatchIn(s, Resume(i + 1, rest, k), rest[k].start);
      if k == 0 {
        assert IsMatch(s, rest[0].start, rest[0].end);
        assert rest[0].start != i;
      }
    }
    if |rest| == 0 {
      assert NoMatchIn(s, i + 1, |s|);
    }
  }

  /** The spans `re.findall` reports when it searches `s` from position `i`. */
  function Spans(s: string, i: nat): seq<Span>
    requires i <= |s|
    decreases |s| - i
  {
    if i == |s| then []
    else
      match MatchAt(s, i)
      case Some(e) => [Span(i, e)] + Spans(s, e)
      case None => Spans(s, i + 1)
  }

  /** `Spans` is a findall: its spans are the leftmost non-overlapping matches. */
  lemma {:induction false} SpansFindAll(s: string, i: nat)
    requires i <= |s|
    ensures IsFindAll(s, i, Spans(s, i))
    decreases |s| - i
  {
    if i < |s| {
      match MatchAt(s, i)
      case Some(e) =>
        SpansFindAll(s, e);
        FindAllCons(s, i, e, Spans(s, e));
      case None =>
        SpansFindAll(s, i + 1);
        FindAllSkip(s, i, Spans(s, i + 1));
    }
  }

  /** Dropping the first span of a findall result leaves a findall result from that span's end. */
  lemma FindAllTail(s: string, i: nat, r: seq<Span>)
    requires IsFindAll(s, i, r) && |r| > 0
    ensures IsFindAll(s, r[0].end, r[1..])
  {
    var e := r[0].end;
    var rest := r[1..];
    forall k | 0 <= k < |rest|
      ensures IsMatch(s, rest[k].start, rest[k].end)
      ensures NoMatchIn(s, Resume(e, rest, k), rest[k].start)
    {
      assert rest[k] == r[k + 1];
      assert Resume(e, rest, k) == Resume(i, r, k + 1);
      assert NoMatchIn(s, Resume(i, r, k + 1), r[k + 1].start);
    }
    assert Resume(e, rest, |rest|) == Resume(i, r, |r|);
  }

  /** When a match starts at `i`, a findall result from `i` reports it first. */
  lemma FindAllHead(s: string, i: nat, e: nat, r: seq<Span>)
    requires i < |s| && MatchAt(s, i) == Some(e)
    requires IsFindAll(s, i, r)
    ensures |r| > 0 && r[0] == Span(i, e)
  {
    if |r| == 0 {
      assert false;
    }
    assert NoMatchIn(s, Resume(i, r, 0), r[0].start);
    assert r[0].start == i;
    assert IsMatch(s, i, r[0].end);
  }

  /** When no match starts at `i`, a findall result from `i` is one from `i + 1`. */
  lemma FindAllNext(s: string, i: nat, r: seq<Span>)
    requires i < |s| && MatchAt(s, i).None?
    requires IsFindAll(s, i, r)
    ensures IsFindAll(s, i + 1, r)
  {
    if |r| == 0 {
      assert NoMatchIn(s, Resume(i, r, 0), |s|);
    }
    forall k | 0 <= k < |r|
      ensures NoMatchIn(s, Resume(i + 1, r, k), r[k].start)
    {
      assert NoMatchIn(s, Resume(i, r, k), r[k].start);
      if k == 0 {
        assert IsMatch(s, r[0].start, r[0].end);
        assert r[0].start != i;
      }
    }
  }

  /** The first span of a findall result from `i` lies inside `s` at or after `i`. */
  lemma FindAllFirst(s: string, i: nat, r: seq<Span>)
    requires IsFindAll(s, i, r)
    ensures |r| > 0 ==> i <= r[0].start && r[0].start + 2 <= r[0].end <= |s|
  {
    if |r| > 0 {
      assert NoMatchIn(s, Resume(i, r, 0), r[0].start);
    }
  }

  /** From the end of the chunk there is nothing left to find. */
  lemma FindAllEnd(s: string, r: seq<Span>)
    requires IsFindAll(s, |s|, r)
    ensures r == []
  {
    FindAllFirst(s, |s|, r);
  }

  /** The characterisation pins the result down: only `Spans` meets it. */
  lemma {:induction false} FindAllUnique(s: string, i: nat, r: seq<Span>)
    requires i <= |s|
    requires IsFindAll(s, i, r)
    ensures r == Spans(s, i)
    decreases |s| - i, 1
  {
    if i == |s| {
      FindAllEnd(s, r);
    } else if MatchAt(s, i).Some? {
      FindAllUniqueAtMatch(s, i, r);
    } else {
      FindAllNext(s, i, r);
      FindAllUnique(s, i + 1, r);
    }
  }

  lemma {:induction false} FindAllUniqueAtMatch(s: string, i: nat, r: seq<Span>)
    requires i < |s| && MatchAt(s, i).Some?
    requires IsFindAll(s, i, r)
    ensures r == Spans(s, i)
    decreases |s| - i, 0
  {
    var e := MatchAt(s, i).value;
    FindAllHead(s, i, e, r);
    FindAllTail(s, i, r);
    FindAllUnique(s, e, r[1..]);
    assert r == [Span(i, e)] + r[1..];
  }

  /** The text of each span, in order. */
  function Texts(s: string, r: seq<Span>): (fs: seq<string>)
    requires forall k :: 0 <= k < |r| ==> r[k].start <= r[k].end <= |s|
    ensures |fs| == |r|
  {
    seq(|r|, k requires 0 <= k < |r| => s[r[k].start..r[k].end])
  }

  /** A string that is, as a whole, one match of the pattern. */
  predicate IsFrame(f: string) {
    IsMatch(f, 0, |f|)
  }

  /**
   `re.findall('{.*?}', s)`: the frames of one chunk, leftmost first. Each is
   a `{`, then characters other than `}` and newline (a `{` is allowed), then `}`.
   */
  function Frames(s: string): (fs: seq<string>)
    ensures forall k :: 0 <= k < |fs| ==> IsFrame(fs[k])
  {
    var r := Spans(s, 0);
    SpansFindAll(s, 0);
    var fs := Texts(s, r);
    assert forall k :: 0 <= k < |fs| ==> IsFrame(fs[k]) by {
      forall k | 0 <= k < |fs|
        ensures IsFrame(fs[k])
      {
        assert IsMatch(s, r[k].start, r[k].end);
        assert fs[k] == s[r[k].start..r[k].end];
      }
    }
    fs
  }

  /** The spans of `r` moved `d` positions to the right. */
  function Shift(r: seq<Span>, d: nat): (r': seq<Span>)
    ensures |r'| == |r|
    ensures forall k :: 0 <= k < |r| ==> r'[k] == Span(r[k].start + d, r[k].end + d)
  {
    seq(|r|, k requires 0 <= k < |r| => Span(r[k].start + d, r[k].end + d))
  }

  /** A match stays a match when text is appended after it. */
  lemma MatchExtends(p: string, q: string, a: nat, b: nat)
    requires IsMatch(p, a, b)
    ensures IsMatch(p + q, a, b)
  {
    forall k | a < k < b - 1
      ensures Interior((p + q)[k])
    {
      assert (p + q)[k] == p[k];
    }
  }

  lemma MatchShiftRight(p: string, q: string, a: nat, b: nat)
    requires IsMatch(q, a, b)
    ensures IsMatch(p + q, |p| + a, |p| + b)
  {
    var s := p + q;
    forall k | |p| + a < k < |p| + b - 1
      ensures Interior(s[k])
    {
      assert s[k] == q[k - |p|];
    }
  }

  lemma MatchShiftLeft(p: string, q: string, a: nat, b: nat)
    requires a <= |q|
    requires IsMatch(p + q, |p| + a, b)
    ensures b >= |p| && IsMatch(q, a, b - |p|)
  {
    var s := p + q;
    forall k | a < k < b - |p| - 1
      ensures Interior(q[k])
    {
      assert q[k] == s[k + |p|];
    }
  }

  /** Whether a match starts at a position depends only on the text from there on. */
  lemma MatchShift(p: string, q: string, a: nat)
    requires a <= |q|
    ensures MatchAt(p + q, |p| + a) == (match MatchAt(q, a) case Some(e) => Some(|p| + e) case None => None)
  {
    var s := p + q;
    var m := MatchAt(q, a);
    var m' := MatchAt(s, |p| + a);
    if m.Some? {
      MatchShiftRight(p, q, a, m.value);
    }
    if m'.Some? {
      MatchShiftLeft(p, q, a, m'.value);
    }
  }

  lemma ShiftCons(sp: Span, r: seq<Span>, d: nat)
    ensures Shift([sp] + r, d) == [Span(sp.start + d, sp.end + d)] + Shift(r, d)
  {
  }

  /** A match at `i` is reported, and the scan goes on from its end. */
  lemma SpansAtMatch(s: string, i: nat, e: nat)
    requires i < |s| && MatchAt(s, i) == Some(e)
    ensures Spans(s, i) == [Span(i, e)] + Spans(s, e)
  {
  }

  /** Without a match at `i`, the scan goes on from the next position. */
  lemma SpansAtSkip(s: string, i: nat)
    requires i < |s| && MatchAt(s, i) == None
    ensures Spans(s, i) == Spans(s, i + 1)
  {
  }

  /** A match at `j` in `q` is a match at `|p| + j` in `p + q`, and both scans go on from its end. */
  lemma SpansShiftMatch(p: string, q: string, j: nat, e: nat)
    requires j < |q| && MatchAt(q, j) == Some(e)
    requires Spans(p + q, |p| + e) == Shift(Spans(q, e), |p|)
    ensures Spans(p + q, |p| + j) == Shift(Spans(q, j), |p|)
  {
    var s := p + q;
    var head := Span(|p| + j, |p| + e);
    var tail := Spans(q, e);
    MatchShift(p, q, j);
    assert MatchAt(s, |p| + j) == Some(|p| + e);
    SpansAtMatch(q, j, e);
    SpansAtMatch(s, |p| + j, |p| + e);
    ShiftCons(Span(j, e), tail, |p|);
    calc {
      Spans(s, |p| + j);
      [head] + Spans(s, |p| + e);
      [head] + Shift(tail, |p|);
      Shift([Span(j, e)] + tail, |p|);
      Shift(Spans(q, j), |p|);
    }
  }

  /** No match at `j` in `q` means none at `|p| + j` in `p + q`, and both scans move one position on. */
  lemma SpansShiftSkip(p: string, q: string, j: nat)
    requires j < |q| && MatchAt(q, j) == None
    requires Spans(p + q, |p| + j + 1) == Shift(Spans(q, j + 1), |p|)
    ensures Spans(p + q, |p| + j) == Shift(Spans(q, j), |p|)
  {
    MatchShift(p, q, j);
    assert MatchAt(p + q, |p| + j) == None;
    SpansAtSkip(q, j);
    SpansAtSkip(p + q, |p| + j);
  }

  /** Scanning behind a prefix finds the same matches, moved by the prefix's length. */
  lemma {:induction false} SpansShift(p: string, q: string, j: nat)
    requires j <= |q|
    ensures Spans(p + q, |p| + j) == Shift(Spans(q, j), |p|)
    decreases |q| - j
  {
    if j == |q| {
      assert |p| + j == |p + q|;
    } else if MatchAt(q, j).Some? {
      var e := MatchAt(q, j).value;
      SpansShift(p, q, e);
      SpansShiftMatch(p, q, j, e);
    } else {
      SpansShift(p, q, j + 1);
      SpansShiftSkip(p, q, j);
    }
  }

  lemma TextsShift(p: string, q: string, r: seq<Span>)
    requires forall k :: 0 <= k < |r| ==> r[k].start <= r[k].end <= |q|
    ensures Texts(p + q, Shift(r, |p|)) == Texts(q, r)
  {
    var s := p + q;
    forall k | 0 <= k < |r|
      ensures s[r[k].start + |p|..r[k].end + |p|] == q[r[k].start..r[k].end]
    {
    }
  }

  lemma TextsCons(s: string, sp: Span, r: seq<Span>)
    requires sp.start <= sp.end <= |s|
    requires forall k :: 0 <= k < |r| ==> r[k].start <= r[k].end <= |s|
    ensures Texts(s, [sp] + r) == [s[sp.start..sp.end]] + Texts(s, r)
  {
  }

  /** A frame at the head of a chunk is reported first, and framing carries on with the text after it. */
  lemma FramesCons(m: string, rest: string)
    requires IsFrame(m)
    ensures Frames(m + rest) == [m] + Frames(rest)
  {
    var s := m + rest;
    MatchExtends(m, rest, 0, |m|);
    assert MatchAt(s, 0) == Some(|m|);
    SpansShift(m, rest, 0);
    SpansFindAll(rest, 0);
    var tail := Spans(rest, 0);
    assert forall k :: 0 <= k < |tail| ==> IsMatch(rest, tail[k].start, tail[k].end);
    assert Spans(s, 0) == [Span(0, |m|)] + Shift(tail, |m|);
    TextsShift(m, rest, tail);
    TextsCons(s, Span(0, |m|), Shift(tail, |m|));
    assert s[0..|m|] == m;
  }

  /** A chunk that is one frame yields exactly that frame. */
  lemma FramesOfFrame(m: string)
    requires IsFrame(m)
    ensures Frames(m) == [m]
  {
    FramesCons(m, []);
    assert m + [] == m;
    FindAllEnd([], Spans([], 0));
  }

  /**
   Round trip: framing the concatenation of frames returns exactly those
   frames, in order.
   */
  lemma {:induction false} FramesOfFlatten(ms: seq<string>)
    requires forall k :: 0 <= k < |ms| ==> IsFrame(ms[k])
    ensures Frames(Flatten(ms)) == ms
  {
    if |ms| == 0 {
      FindAllEnd([], Spans([], 0));
    } else {
      FramesOfFlatten(ms[1..]);
      FramesCons(ms[0], Flatten(ms[1..]));
      assert ms == [ms[0]] + ms[1..];
    }
  }

  /** A chunk yields a frame only if it holds both a `{` and a `}`. */
  lemma FramesNeedBraces(s: string)
    ensures Frames(s) != [] ==> '{' in s && '}' in s
  {
    var r := Spans(s, 0);
    SpansFindAll(s, 0);
    FindAllFirst(s, 0, r);
    if |r| > 0 {
      assert IsMatch(s, r[0].start, r[0].end);
      assert s[r[0].start] == '{' && s[r[0].end - 1] == '}';
    }
  }

  /**
   A frame cut in two anywhere yields no frame from either piece, when its
   only `{` is the first character: each piece lacks one of the braces.
   */
  lemma SplitFrameVanishes(m: string, k: nat)
    requires IsFrame(m)
    requires '{' !in m[1..]
    requires 0 < k < |m|
    ensures Frames(m) == [m]
    ensures Frames(m[..k]) == [] && Frames(m[k..]) == []
  {
    FramesOfFrame(m);
    assert '}' !in m[..k] by {
      forall j | 0 <= j < k
        ensures m[..k][j] != '}'
      {
        assert m[..k][j] == m[j];
        if j > 0 {
          assert Interior(m[j]);
        }
      }
    }
    assert '{' !in m[k..] by {
      forall j | 0 <= j < |m| - k
        ensures m[k..][j] != '{'
      {
        assert m[k..][j] == m[1..][j + k - 1];
      }
    }
    FramesNeedBraces(m[..k]);
    FramesNeedBraces(m[k..]);
  }

  /** An inner `{` does not start a new frame: `{{}` is one frame, reported whole. */
  lemma OpenBraceInsideFrame()
    ensures Frames("{{}") == ["{{}"]
  {
    assert IsFrame("{{}");
    FramesOfFrame("{{}");
  }

  /** `.` does not match a newline, so a `{` and a `}` on different lines form no frame. */
  lemma NewlineBreaksFrame()
    ensures Frames("{\n}") == []
  {
    var s := "{\n}";
    assert '{' !in s[1..];
    assert MatchAt(s, 0).None? by {
      assert StopFrom(s, 1) == Some(1);
    }
    assert Spans(s, 1) == [] by {
      assert MatchAt(s, 1).None? && MatchAt(s, 2).None?;
      assert Spans(s, 1) == Spans(s, 2) == Spans(s, 3);
    }
  }
}
