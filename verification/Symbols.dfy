/** Unified `BASE/QUOTE` symbols, the legs of an opportunity, and the opportunity itself. */
module Symbols {
  import opened Walks

  /** Characters before the first slash. */
  function BeforeSlash(s: string): (n: nat)
    ensures n <= |s| && '/' !in s[..n]
    ensures n < |s| ==> s[n] == '/'
  {
    if s == "" || s[0] == '/' then 0
    else
      var n := 1 + BeforeSlash(s[1..]);
      assert s[..n] == [s[0]] + s[1..][..n - 1];
      n
  }

  predicate IsPair(s: string) {
    '/' in s
  }

  /** `symbol.split("/", 1)` */
  function Base(s: string): string {
    s[..BeforeSlash(s)]
  }

  function Quote(s: string): string {
    if IsPair(s) then assert BeforeSlash(s) < |s|; s[BeforeSlash(s) + 1..] else ""
  }

  function Pair(base: string, quote: string): string {
    base + "/" + quote
  }

  lemma {:induction false} BeforeSlashOf(base: string, rest: string)
    requires '/' !in base
    ensures BeforeSlash(base + "/" + rest) == |base|
  {
    var s := base + "/" + rest;
    if base == "" {
      assert s[0] == '/';
    } else {
      assert s[1..] == base[1..] + "/" + rest;
      BeforeSlashOf(base[1..], rest);
    }
  }

  lemma PairSplits(base: string, quote: string)
    requires '/' !in base
    ensures var s := Pair(base, quote); IsPair(s) && Base(s) == base && Quote(s) == quote
  {
    BeforeSlashOf(base, quote);
    assert Pair(base, quote)[|base|] == '/';
  }

  datatype Leg = Leg(venue: string, symbol: string, side: Side, price: real, size: real, fee: real)

  datatype Opportunity = Opportunity(strategy: string, symbol: string, legs: seq<Leg>,
                                     grossProfitPct: real, netProfitPct: real, maxSizeUsd: real)
}
