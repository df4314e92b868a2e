/** Line lists made of four-line blocks, one block per item, numbered from 1: the
    shape of the line list `generate_srt` in app/main.py builds, and of the reader
    that takes such a list apart again. Stated for any item type and any block
    renderer, so that the reasoning about positions does not depend on what the
    lines hold. */
module CueBlocks {
  import opened Text

  /** The blocks of the items of xs in order; the block of the k-th item (counting
      from 1) is block(k, item). */
  function Blocks<T>(xs: seq<T>, block: (nat, T) -> seq<string>): seq<string> {
    if xs == [] then [] else Blocks(xs[..|xs| - 1], block) + block(|xs|, xs[|xs| - 1])
  }

  /** Four-line blocks give four lines per item. */
  lemma {:induction false} BlocksLength<T>(xs: seq<T>, block: (nat, T) -> seq<string>)
    requires forall k, x :: |block(k, x)| == 4
    ensures |Blocks(xs, block)| == 4 * |xs|
    decreases |xs|
  {
    if xs != [] {
      BlocksLength(xs[..|xs| - 1], block);
    }
  }

  /** With four-line blocks, lines 4i..4i+3 are the block of item i, numbered i + 1. */
  lemma {:induction false} BlocksAt<T>(xs: seq<T>, block: (nat, T) -> seq<string>, i: nat)
    requires forall k, x :: |block(k, x)| == 4
    requires i < |xs|
    ensures |Blocks(xs, block)| == 4 * |xs|
    ensures Blocks(xs, block)[4 * i..4 * i + 4] == block(i + 1, xs[i])
    decreases |xs|
  {
    var n := |xs|;
    var prefix := xs[..n - 1];
    BlocksLength(prefix, block);
    if i < n - 1 {
      BlocksAt(prefix, block, i);
      assert prefix[i] == xs[i];
    }
  }

  /** Visiting one more item appends its block. */
  lemma BlocksSnoc<T>(xs: seq<T>, block: (nat, T) -> seq<string>, i: nat)
    requires i < |xs|
    ensures Blocks(xs[..i + 1], block) == Blocks(xs[..i], block) + block(i + 1, xs[i])
  {
    assert xs[..i + 1][..i] == xs[..i];
  }

  /** Four single appends add the four-element sequence. */
  lemma AppendFour<T>(s: seq<T>, a: T, b: T, c: T, d: T)
    ensures s + [a] + [b] + [c] + [d] == s + [a, b, c, d]
  {
  }

  /** No line of lines holds the character c. */
  predicate LinesAvoid(lines: seq<string>, c: char) {
    forall j :: 0 <= j < |lines| ==> c !in lines[j]
  }

  /** If no line of any block holds c, no line of the blocks does. */
  lemma {:induction false} BlocksAvoid<T>(xs: seq<T>, block: (nat, T) -> seq<string>, c: char)
    requires forall i :: 0 <= i < |xs| ==> LinesAvoid(block(i + 1, xs[i]), c)
    ensures LinesAvoid(Blocks(xs, block), c)
    decreases |xs|
  {
    if xs != [] {
      var n := |xs|;
      var prefix := xs[..n - 1];
      assert forall i :: 0 <= i < |prefix| ==> prefix[i] == xs[i];
      BlocksAvoid(prefix, block, c);
      var last := block(n, xs[n - 1]);
      assert LinesAvoid(last, c);
      assert Blocks(xs, block) == Blocks(prefix, block) + last;
    }
  }

  /** The results f(1, xs[0]), f(2, xs[1]), ... in order. */
  function Numbered<T, C>(xs: seq<T>, f: (nat, T) -> C): (r: seq<C>)
    ensures |r| == |xs|
  {
    if xs == [] then [] else Numbered(xs[..|xs| - 1], f) + [f(|xs|, xs[|xs| - 1])]
  }

  lemma {:induction false} NumberedAt<T, C>(xs: seq<T>, f: (nat, T) -> C, i: nat)
    requires i < |xs|
    ensures Numbered(xs, f)[i] == f(i + 1, xs[i])
    decreases |xs|
  {
    var n := |xs|;
    if i < n - 1 {
      NumberedAt(xs[..n - 1], f, i);
    }
  }

  /** Reads a line list as consecutive groups of four lines, each read by parse. */
  function ParseGroups<C>(lines: seq<string>, parse: seq<string> -> Option<C>): Option<seq<C>>
    decreases |lines|
  {
    if lines == [] then Some([])
    else if |lines| < 4 then None
    else
      match (parse(lines[..4]), ParseGroups(lines[4..], parse))
      case (Some(c), Some(rest)) => Some([c] + rest)
      case _ => None
  }

  /** A list of 4·n lines whose j-th group reads as r[j] reads as r. */
  lemma {:induction false} ParseGroupsOk<C>(lines: seq<string>, parse: seq<string> -> Option<C>, r: seq<C>)
    requires |lines| == 4 * |r|
    requires forall j :: 0 <= j < |r| ==> parse(lines[4 * j..4 * j + 4]) == Some(r[j])
    ensures ParseGroups(lines, parse) == Some(r)
    decreases |r|
  {
    if r != [] {
      var rest := lines[4..];
      forall j | 0 <= j < |r| - 1
        ensures parse(rest[4 * j..4 * j + 4]) == Some(r[1..][j])
      {
        assert rest[4 * j..4 * j + 4] == lines[4 * (j + 1)..4 * (j + 1) + 4];
      }
      ParseGroupsOk(rest, parse, r[1..]);
      assert lines[..4] == lines[4 * 0..4 * 0 + 4];
      assert r == [r[0]] + r[1..];
    }
  }

  /** When parse reads the block of every item as want of that item, reading the
      blocks gives want of every item, in order and numbered from 1. */
  lemma ParseBlocks<T, C>(xs: seq<T>, block: (nat, T) -> seq<string>,
                          parse: seq<string> -> Option<C>, want: (nat, T) -> C)
    requires forall k, x :: |block(k, x)| == 4
    requires forall i :: 0 <= i < |xs| ==> parse(block(i + 1, xs[i])) == Some(want(i + 1, xs[i]))
    ensures ParseGroups(Blocks(xs, block), parse) == Some(Numbered(xs, want))
  {
    var lines, r := Blocks(xs, block), Numbered(xs, want);
    BlocksLength(xs, block);
    forall j | 0 <= j < |r|
      ensures parse(lines[4 * j..4 * j + 4]) == Some(r[j])
    {
      BlocksAt(xs, block, j);
      NumberedAt(xs, want, j);
    }
    ParseGroupsOk(lines, parse, r);
  }
}
