/** Requests that follow each other on one connection: how the bytes of the connection are cut
    into header blocks (boa-0.94.13/src/request.c, read.c).
 */
module Pipelining {
  import opened Text
  import opened HeaderDfa

  /** The bytes that one request record parsed, and how its header loop stopped; `Going` when the
      record was given up before. */
  datatype Segment = Segment(text: string, result: Result)

  function Flatten(history: seq<Segment>): string {
    if history == [] then "" else Flatten(history[..|history| - 1]) + history[|history| - 1].text
  }

  /** The loop stops right at the end of the segment and not before, unless it was given up. */
  ghost predicate Delimited(g: Segment, h: Handlers) {
    var d := Feed(g.text, |g.text|, h);
    d.pos == |g.text| && d.result == g.result
  }

  ghost predicate AllDelimited(history: seq<Segment>, h: Handlers) {
    forall i | 0 <= i < |history| :: Delimited(history[i], h)
  }

  predicate NoneGivenUp(history: seq<Segment>) {
    forall i | 0 <= i < |history| :: history[i].result != Going
  }

  /** The blocks of a text, by the text alone. */
  function Blocks(c: string, h: Handlers): seq<Segment>
    decreases |c|
  {
    var d := Feed(c, |c|, h);
    if d.result == Going then [] else [Segment(c[..d.pos], d.result)] + Blocks(c[d.pos..], h)
  }

  /** The machine on the bytes up to where it stopped, and on any bytes after those. */
  lemma {:induction false} FeedCut(c: string, n: nat, h: Handlers)
    requires n <= |c|
    ensures
      var p := Feed(c, n, h).pos;
      Feed(c[..p], p, h) == Feed(c, n, h) == Feed(c, p, h)
  {
    hide *;
    var p := Feed(c, n, h).pos;
    if p == n {
      CutApart(c, p);
      FeedPrefix(c[..p], c[p..], p, h);
    } else {
      FeedStopped(c, n, h);
      FeedCut(c, n - 1, h);
    }
  }

  lemma CutApart(c: string, p: nat)
    requires p <= |c|
    ensures c[..p] + c[p..] == c && |c[..p]| == p
  {}

  lemma FeedStopped(c: string, n: nat, h: Handlers)
    requires n <= |c| && Feed(c, n, h).pos != n
    ensures 0 < n && Feed(c, n, h) == Feed(c, n - 1, h)
  {}

  /** What one request record parses is the first block; the rest is cut as if it came alone. */
  lemma {:induction false} BlocksAfter(history: seq<Segment>, c: string, all: string, h: Handlers)
    requires Flatten(history) + c == all && AllDelimited(history, h) && NoneGivenUp(history)
    ensures Blocks(all, h) == history + Blocks(c, h)
  {
    hide *;
    if history == [] {
      NoHistory(c, h);
    } else {
      var last := |history| - 1;
      var g := history[last];
      LastOf(history, c, h);
      BlocksAfter(history[..last], g.text + c, all, h);
      FirstBlock(g, c, h);
      SplitLast(history, Blocks(c, h));
    }
  }

  lemma NoHistory(c: string, h: Handlers)
    ensures Flatten([]) + c == c && [] + Blocks(c, h) == Blocks(c, h)
  {}

  lemma LastOf(history: seq<Segment>, c: string, h: Handlers)
    requires history != [] && AllDelimited(history, h) && NoneGivenUp(history)
    ensures
      var last := |history| - 1;
      var g := history[last];
      && AllDelimited(history[..last], h) && NoneGivenUp(history[..last]) && Delimited(g, h) && g.result != Going
      && Flatten(history[..last]) + (g.text + c) == Flatten(history) + c
  {
    hide Delimited;
  }

  lemma SplitLast(history: seq<Segment>, more: seq<Segment>)
    requires history != []
    ensures var last := |history| - 1; history[..last] + ([history[last]] + more) == history + more
  {}

  lemma FirstBlock(g: Segment, c: string, h: Handlers)
    requires Delimited(g, h) && g.result != Going
    ensures Blocks(g.text + c, h) == [g] + Blocks(c, h)
  {
    var s := g.text + c;
    FeedPrefix(g.text, c, |g.text|, h);
    FeedStays(s, |g.text|, |s|, h);
    assert s[..|g.text|] == g.text && s[|g.text|..] == c;
  }

  /** A text cut into complete blocks and the incomplete header at the end. */
  ghost predicate Cut(c: string, blocks: seq<Segment>, h: Handlers) {
    && AllDelimited(blocks, h) && NoneGivenUp(blocks)
    && var n := |Flatten(blocks)|;
       n <= |c| && c[..n] == Flatten(blocks) && Feed(c[n..], |c| - n, h).result == Going
  }

  /** Every byte is in exactly one block or in the incomplete header at the end. */
  lemma {:induction false} BlocksConserve(c: string, h: Handlers)
    ensures Cut(c, Blocks(c, h), h)
    decreases |c|
  {
    hide *;
    var d := Feed(c, |c|, h);
    if d.result == Going {
      OnlyRest(c, h);
    } else {
      var rest := c[d.pos..];
      FirstOf(c, h);
      BlocksConserve(rest, h);
      CutCons(Segment(c[..d.pos], d.result), rest, Blocks(rest, h), h);
      CutApart(c, d.pos);
    }
  }

  lemma OnlyRest(c: string, h: Handlers)
    requires Feed(c, |c|, h).result == Going
    ensures Cut(c, Blocks(c, h), h)
  {
    hide Feed;
    assert c[0..] == c;
  }

  lemma FirstOf(c: string, h: Handlers)
    requires Feed(c, |c|, h).result != Going
    ensures
      var d := Feed(c, |c|, h);
      var g := Segment(c[..d.pos], d.result);
      Delimited(g, h) && Blocks(c, h) == [g] + Blocks(c[d.pos..], h)
  {
    hide Feed;
    FeedCut(c, |c|, h);
  }

  lemma CutCons(g: Segment, rest: string, tail: seq<Segment>, h: Handlers)
    requires Delimited(g, h) && g.result != Going && Cut(rest, tail, h)
    ensures Cut(g.text + rest, [g] + tail, h)
  {
    FlattenCons(g, tail);
    hide Feed, Flatten, Delimited;
    var c, n := g.text + rest, |Flatten(tail)|;
    assert c[|g.text| + n..] == rest[n..];
    assert c[..|g.text| + n] == g.text + rest[..n];
  }

  lemma {:induction false} FlattenCons(g: Segment, history: seq<Segment>)
    ensures Flatten([g] + history) == g.text + Flatten(history)
  {
    var s := [g] + history;
    if history == [] {
      assert s[..0] == [];
    } else {
      assert s[..|s| - 1] == [g] + history[..|history| - 1];
      FlattenCons(g, history[..|history| - 1]);
    }
  }
}
