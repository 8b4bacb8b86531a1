/**
 * Replacement of marker-delimited blocks, as both README updaters do it with
 * `re.sub(OPEN + ".*?" + CLOSE, content, data, flags=re.DOTALL)`: the
 * leftmost opening marker, the first closing marker after it (the lazy
 * `.*?`), then the search resumes after that closing marker.
 */
module Markers {
  import opened Options

  /** `p` occurs in `s` starting at index `i`. */
  predicate OccursAt(s: string, p: string, i: nat) {
    i + |p| <= |s| && s[i..i + |p|] == p
  }

  /** The first occurrence of `p` in `s` at or after index `from`. */
  function IndexOf(s: string, p: string, from: nat): (r: Option<nat>)
    requires from <= |s|
    ensures r.Some? ==> from <= r.value && OccursAt(s, p, r.value)
    ensures r.Some? ==> forall k :: from <= k < r.value ==> !OccursAt(s, p, k)
    ensures r.None? ==> forall k :: from <= k ==> !OccursAt(s, p, k)
    decreases |s| - from
  {
    if |s| < from + |p| then None
    else if s[from..from + |p|] == p then Some(from)
    else IndexOf(s, p, from + 1)
  }

  /** `s[start..end]` is a block: it starts with `open` and ends with `close`. */
  datatype Span = Span(start: nat, end: nat)

  /** What `re.search` looks for: an opening marker with a closing marker after it. */
  ghost predicate HasBlock(s: string, open: string, close: string) {
    exists i: nat, j: nat :: OccursAt(s, open, i) && i + |open| <= j && OccursAt(s, close, j)
  }

  /**
   * `b` is the block the regex matches first: the leftmost opening marker and
   * the first closing marker that starts after it.
   */
  ghost predicate IsFirstBlock(s: string, open: string, close: string, b: Span) {
    && OccursAt(s, open, b.start)
    && b.start + |open| + |close| <= b.end
    && OccursAt(s, close, b.end - |close|)
    && (forall k :: 0 <= k < b.start ==> !OccursAt(s, open, k))
    && (forall k :: b.start + |open| <= k < b.end - |close| ==> !OccursAt(s, close, k))
  }

  /** The leftmost shortest block of `s`, if there is one. */
  function FirstBlock(s: string, open: string, close: string): (b: Option<Span>)
    ensures b.None? <==> !HasBlock(s, open, close)
    ensures b.Some? ==> b.value.end <= |s| && IsFirstBlock(s, open, close, b.value)
  {
    match IndexOf(s, open, 0)
    case None => None
    case Some(i) =>
      match IndexOf(s, close, i + |open|)
      case None => None
      case Some(j) => Some(Span(i, j + |close|))
  }

  /** Any two descriptions of the first block agree. */
  lemma FirstBlockUnique(s: string, open: string, close: string, b: Span, b': Span)
    requires IsFirstBlock(s, open, close, b) && IsFirstBlock(s, open, close, b')
    ensures b == b'
  {
  }

  /**
   * `re.sub(OPEN + ".*?" + CLOSE, content, s, flags=re.DOTALL)`: every block
   * found by the scan is replaced by `content`; the text around them is kept.
   */
  function ReplaceBlocks(s: string, open: string, close: string, content: string): (r: string)
    requires |open| > 0
    ensures !HasBlock(s, open, close) ==> r == s
    ensures HasBlock(s, open, close) ==>
              var b := FirstBlock(s, open, close).value;
              && b.start + |content| <= |r|
              && r[..b.start] == s[..b.start]
              && r[b.start..b.start + |content|] == content
    decreases |s|
  {
    match FirstBlock(s, open, close)
    case None => s
    case Some(b) =>
      var r := s[..b.start] + content + ReplaceBlocks(s[b.end..], open, close, content);
      assert r[..b.start] == s[..b.start];
      assert r[b.start..b.start + |content|] == content;
      r
  }

  /**
   * A replacement text that is itself exactly one block: it opens with the
   * opening marker, ends with the closing marker, and the closing marker
   * appears nowhere else after the opening one.
   */
  ghost predicate WellFormedBlock(c: string, open: string, close: string) {
    && |open| + |close| <= |c|
    && OccursAt(c, open, 0)
    && OccursAt(c, close, |c| - |close|)
    && (forall k :: |open| <= k < |c| - |close| ==> !OccursAt(c, close, k))
  }

  /** Markers around a body with no '<' make a well-formed block when the closing marker starts with '<'. */
  lemma MarkedBodyIsBlock(open: string, body: string, close: string)
    requires |close| > 0 && close[0] == '<'
    requires '<' !in body
    ensures WellFormedBlock(open + body + close, open, close)
  {
    var c := open + body + close;
    assert c[..|open|] == open;
    assert c[|c| - |close|..] == close;
    forall k | |open| <= k < |c| - |close|
      ensures !OccursAt(c, close, k)
    {
      assert c[k] == body[k - |open|];
    }
  }

  /** A block with the first-block properties is the one `FirstBlock` finds. */
  lemma FirstBlockIs(s: string, open: string, close: string, b: Span)
    requires IsFirstBlock(s, open, close, b)
    ensures FirstBlock(s, open, close) == Some(b)
  {
    assert OccursAt(s, open, b.start) && OccursAt(s, close, b.end - |close|);
    assert HasBlock(s, open, close);
    FirstBlockUnique(s, open, close, b, FirstBlock(s, open, close).value);
  }

  /**
   * An occurrence of `p` that ends inside a common prefix of `s` and `t`
   * occurs in both.
   */
  lemma OccursInCommonPrefix(s: string, t: string, n: nat, p: string, k: nat)
    requires n <= |s| && n <= |t| && s[..n] == t[..n]
    requires k + |p| <= n
    ensures OccursAt(s, p, k) <==> OccursAt(t, p, k)
  {
    assert s[k..k + |p|] == s[..n][k..k + |p|];
    assert t[k..k + |p|] == t[..n][k..k + |p|];
  }

  /** An occurrence of `p` inside the piece `c` of `t` at offset `i`. */
  lemma OccursInPiece(t: string, c: string, i: nat, p: string, k: nat)
    requires i + |c| <= |t| && t[i..i + |c|] == c
    requires i <= k && k + |p| <= i + |c|
    ensures OccursAt(t, p, k) <==> OccursAt(c, p, k - i)
  {
    forall x | k <= x < k + |p|
      ensures t[x] == c[x - i]
    {
      assert t[x] == t[i..i + |c|][x - i];
    }
    assert t[k..k + |p|] == c[k - i..k - i + |p|];
  }

  /**
   * A well-formed block placed at `i` in `t`, with no opening marker starting
   * before `i`, is the first block of `t`.
   */
  lemma WellFormedBlockFirst(t: string, open: string, close: string, c: string, i: nat)
    requires WellFormedBlock(c, open, close)
    requires i + |c| <= |t| && t[i..i + |c|] == c
    requires forall k :: 0 <= k < i ==> !OccursAt(t, open, k)
    ensures FirstBlock(t, open, close) == Some(Span(i, i + |c|))
  {
    OccursInPiece(t, c, i, open, i);
    forall k | i + |open| <= k < i + |c| - |close|
      ensures !OccursAt(t, close, k)
    {
      OccursInPiece(t, c, i, close, k);
    }
    OccursInPiece(t, c, i, close, i + |c| - |close|);
    FirstBlockIs(t, open, close, Span(i, i + |c|));
  }

  /**
   * Putting a well-formed block where the first block was gives a string whose
   * first block is exactly the new one.
   */
  lemma FirstBlockAfterReplace(s: string, open: string, close: string, c: string, b: Span, rest: string)
    requires WellFormedBlock(c, open, close)
    requires b.end <= |s| && IsFirstBlock(s, open, close, b)
    ensures FirstBlock(s[..b.start] + c + rest, open, close) == Some(Span(b.start, b.start + |c|))
  {
    var i := b.start;
    var t := s[..i] + c + rest;
    var n := i + |open|;
    assert t[i..i + |c|] == c;
    assert t[..n] == s[..n] by {
      assert t[..i] == s[..i];
      assert t[i..n] == c[..|open|];
    }
    forall k | 0 <= k < i
      ensures !OccursAt(t, open, k)
    {
      OccursInCommonPrefix(s, t, n, open, k);
    }
    WellFormedBlockFirst(t, open, close, c, i);
  }

  /**
   * Replacing with a well-formed block is idempotent: running the updater a
   * second time with the same content changes nothing.
   */
  lemma {:induction false} ReplaceIdempotent(s: string, open: string, close: string, c: string)
    requires |open| > 0
    requires WellFormedBlock(c, open, close)
    ensures ReplaceBlocks(ReplaceBlocks(s, open, close, c), open, close, c) == ReplaceBlocks(s, open, close, c)
    decreases |s|
  {
    match FirstBlock(s, open, close)
    case None =>
    case Some(b) =>
      var rest := ReplaceBlocks(s[b.end..], open, close, c);
      var t := s[..b.start] + c + rest;
      assert ReplaceBlocks(s, open, close, c) == t;
      FirstBlockAfterReplace(s, open, close, c, b, rest);
      assert t[b.start + |c|..] == rest;
      assert t[..b.start] == s[..b.start];
      ReplaceIdempotent(s[b.end..], open, close, c);
  }

  /** After a replacement with a well-formed block, the text still has a block. */
  lemma ReplaceKeepsBlock(s: string, open: string, close: string, c: string)
    requires |open| > 0
    requires WellFormedBlock(c, open, close)
    requires HasBlock(s, open, close)
    ensures HasBlock(ReplaceBlocks(s, open, close, c), open, close)
  {
    var b := FirstBlock(s, open, close).value;
    var rest := ReplaceBlocks(s[b.end..], open, close, c);
    FirstBlockAfterReplace(s, open, close, c, b, rest);
  }

  /** An occurrence in `s` is the same occurrence shifted by `|p|` in `p + s`. */
  lemma OccursAfterPrefix(p: string, s: string, x: string, i: nat)
    ensures OccursAt(p + s, x, |p| + i) <==> OccursAt(s, x, i)
  {
    if i + |x| <= |s| {
      assert (p + s)[|p|..|p| + |s|] == s;
      OccursInPiece(p + s, s, |p|, x, |p| + i);
    }
  }

  /** The first block of `s`, shifted by `|p|`, is the first block of `p + s`. */
  lemma ShiftedFirstBlock(p: string, s: string, open: string, close: string, b: Span)
    requires forall k :: 0 <= k < |p| ==> !OccursAt(p + s, open, k)
    requires IsFirstBlock(s, open, close, b)
    ensures IsFirstBlock(p + s, open, close, Span(|p| + b.start, |p| + b.end))
  {
    OccursAfterPrefix(p, s, open, b.start);
    OccursAfterPrefix(p, s, close, b.end - |close|);
    forall k | |p| <= k < |p| + b.start
      ensures !OccursAt(p + s, open, k)
    {
      OccursAfterPrefix(p, s, open, k - |p|);
    }
    forall k | |p| + b.start + |open| <= k < |p| + b.end - |close|
      ensures !OccursAt(p + s, close, k)
    {
      OccursAfterPrefix(p, s, close, k - |p|);
    }
  }

  /** A block of `p + s` that starts at or after `|p|` is a block of `s`. */
  lemma BlockAfterPrefix(p: string, s: string, open: string, close: string, i: nat, j: nat)
    requires |p| <= i && OccursAt(p + s, open, i) && i + |open| <= j && OccursAt(p + s, close, j)
    ensures HasBlock(s, open, close)
  {
    OccursAfterPrefix(p, s, open, i - |p|);
    OccursAfterPrefix(p, s, close, j - |p|);
  }

  /** With no opening marker starting inside `p`, the first block of `p + s` is that of `s`, shifted. */
  lemma FirstBlockAfterPrefix(p: string, s: string, open: string, close: string)
    requires forall k :: 0 <= k < |p| ==> !OccursAt(p + s, open, k)
    ensures HasBlock(p + s, open, close) <==> HasBlock(s, open, close)
    ensures HasBlock(s, open, close) ==>
              var b := FirstBlock(s, open, close).value;
              FirstBlock(p + s, open, close) == Some(Span(|p| + b.start, |p| + b.end))
  {
    if HasBlock(s, open, close) {
      var b := FirstBlock(s, open, close).value;
      ShiftedFirstBlock(p, s, open, close, b);
      FirstBlockIs(p + s, open, close, Span(|p| + b.start, |p| + b.end));
    } else if HasBlock(p + s, open, close) {
      var i: nat, j: nat :| OccursAt(p + s, open, i) && i + |open| <= j && OccursAt(p + s, close, j);
      BlockAfterPrefix(p, s, open, close, i, j);
    }
  }

  /** One step of the replacement scan, at the first block `b`. */
  lemma ReplaceStep(t: string, open: string, close: string, c: string, b: Span, before: string, after: string)
    requires |open| > 0
    requires FirstBlock(t, open, close) == Some(b)
    requires before == t[..b.start] && after == t[b.end..]
    ensures ReplaceBlocks(t, open, close, c) == before + c + ReplaceBlocks(after, open, close, c)
  {
  }

  /** Slicing `p + s` at positions shifted by `|p|`. */
  lemma SlicesAfterPrefix(p: string, s: string, b: Span, c: string, rest: string)
    requires b.start <= b.end <= |s|
    ensures (p + s)[|p| + b.end..] == s[b.end..]
    ensures (p + s)[..|p| + b.start] == p + s[..b.start]
    ensures p + s[..b.start] + c + rest == p + (s[..b.start] + c + rest)
  {
  }

  /** One replacement step in `p + s` when the first block of `s`, shifted by `|p|`, is its first block. */
  lemma ReplaceShiftedBlock(p: string, s: string, open: string, close: string, c: string, b: Span)
    requires |open| > 0
    requires FirstBlock(s, open, close) == Some(b)
    requires FirstBlock(p + s, open, close) == Some(Span(|p| + b.start, |p| + b.end))
    ensures ReplaceBlocks(p + s, open, close, c) == p + ReplaceBlocks(s, open, close, c)
  {
    var tail := s[b.end..];
    ReplaceStep(s, open, close, c, b, s[..b.start], tail);
    SlicesAfterPrefix(p, s, b, c, ReplaceBlocks(tail, open, close, c));
    ReplaceStep(p + s, open, close, c, Span(|p| + b.start, |p| + b.end), p + s[..b.start], tail);
  }

  /**
   * Text in front of the blocks is kept as it is, whatever number of blocks
   * follow: replacing in `p + s` is replacing in `s`, provided no opening
   * marker starts inside `p` (not even one that runs on into `s`).
   */
  lemma ReplaceAfterPrefix(p: string, s: string, open: string, close: string, c: string)
    requires |open| > 0
    requires forall k :: 0 <= k < |p| ==> !OccursAt(p + s, open, k)
    ensures ReplaceBlocks(p + s, open, close, c) == p + ReplaceBlocks(s, open, close, c)
  {
    FirstBlockAfterPrefix(p, s, open, close);
    match FirstBlock(s, open, close)
    case None =>
      assert FirstBlock(p + s, open, close).None?;
    case Some(b) =>
      ReplaceShiftedBlock(p, s, open, close, c, b);
  }

  /**
   * Every block is replaced and the text between blocks is kept: two blocks
   * with plain text before, between and after them.
   */
  lemma ReplaceTwoBlocks(a: string, m: string, b: string, n: string, z: string, open: string, close: string, c: string)
    requires |open| > 0
    requires forall k :: 0 <= k < |a| ==> !OccursAt(a + open, open, k)
    requires forall k :: 0 <= k < |m| ==> !OccursAt(m + close, close, k)
    requires forall k :: 0 <= k < |b| ==> !OccursAt(b + open, open, k)
    requires forall k :: 0 <= k < |n| ==> !OccursAt(n + close, close, k)
    requires !HasBlock(z, open, close)
    ensures ReplaceBlocks(a + open + m + close + (b + open + n + close + z), open, close, c)
            == a + c + (b + c + z)
  {
    ReplaceFirstBlock(a, m, b + open + n + close + z, open, close, c);
    ReplaceSingleBlock(b, n, z, open, close, c);
  }

  /**
   * A block whose opening marker is the first in the text and whose closing
   * marker is the first after it is replaced, the text before it is kept, and
   * the replacement goes on in the text after it.
   */
  lemma ReplaceFirstBlock(p: string, m: string, q: string, open: string, close: string, c: string)
    requires |open| > 0
    requires forall k :: 0 <= k < |p| ==> !OccursAt(p + open, open, k)
    requires forall k :: 0 <= k < |m| ==> !OccursAt(m + close, close, k)
    ensures ReplaceBlocks(p + open + m + close + q, open, close, c) == p + c + ReplaceBlocks(q, open, close, c)
  {
    var s := p + open + m + close + q;
    var i := |p|;
    var e := |p| + |open| + |m| + |close|;
    assert s[..i + |open|] == p + open;
    forall k | 0 <= k < i
      ensures !OccursAt(s, open, k)
    {
      OccursInCommonPrefix(s, p + open, i + |open|, open, k);
    }
    assert s[i..i + |open|] == open;
    forall k | i + |open| <= k < e - |close|
      ensures !OccursAt(s, close, k)
    {
      assert !OccursAt(m + close, close, k - i - |open|);
      assert s[k..k + |close|] == (m + close)[k - i - |open|..k - i - |open| + |close|];
    }
    assert s[e - |close|..e] == close;
    FirstBlockIs(s, open, close, Span(i, e));
    assert s[..i] == p;
    assert s[e..] == q;
  }

  /**
   * The usual README: text, one block, text with no further block. The block
   * is replaced and the text on both sides is kept exactly.
   */
  lemma ReplaceSingleBlock(p: string, m: string, q: string, open: string, close: string, c: string)
    requires |open| > 0
    requires forall k :: 0 <= k < |p| ==> !OccursAt(p + open, open, k)
    requires forall k :: 0 <= k < |m| ==> !OccursAt(m + close, close, k)
    requires !HasBlock(q, open, close)
    ensures ReplaceBlocks(p + open + m + close + q, open, close, c) == p + c + q
  {
    ReplaceFirstBlock(p, m, q, open, close, c);
  }
}
