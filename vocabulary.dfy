/**
 * The vocabulary: the distinct final symbols, each mapped to its position
 * in sorted order.  Strings compare lexicographically by code point.
 */
module Vocabulary {
  import opened Symbols

  /** Lexicographic "strictly less than" on strings, code point by code point;
      a proper prefix sorts first. */
  predicate LexLess(a: string, b: string)
  {
    if b == [] then false
    else if a == [] then true
    else if a[0] != b[0] then a[0] < b[0]
    else LexLess(a[1..], b[1..])
  }

  lemma {:induction false} LexLessIrreflexive(a: string)
    ensures !LexLess(a, a)
  {
    if a != [] {
      LexLessIrreflexive(a[1..]);
    }
  }

  lemma {:induction false} LexLessTransitive(a: string, b: string, c: string)
    requires LexLess(a, b) && LexLess(b, c)
    ensures LexLess(a, c)
  {
    if a != [] && a[0] == b[0] && b[0] == c[0] {
      LexLessTransitive(a[1..], b[1..], c[1..]);
    }
  }

  lemma {:induction false} LexLessTotal(a: string, b: string)
    requires a != b
    ensures LexLess(a, b) || LexLess(b, a)
  {
    if a != [] && b != [] && a[0] == b[0] {
      assert a == [a[0]] + a[1..] && b == [b[0]] + b[1..];
      LexLessTotal(a[1..], b[1..]);
    }
  }

  /** The symbols of `symbols` that sort before `t`. */
  function Below(symbols: set<Symbol>, t: Symbol): set<Symbol>
  {
    set u | u in symbols && LexLess(u, t)
  }

  lemma ProperSubsetCardinality(a: set<Symbol>, b: set<Symbol>, x: Symbol)
    requires a <= b && x in b && x !in a
    ensures |a| < |b|
  {
    assert b == a + (b - a);
    assert a * (b - a) == {};
    assert x in b - a;
  }

  /** Sorting by rank: a symbol that sorts before another has a smaller rank,
      and every rank is below the number of symbols. */
  lemma RanksFollowOrder(symbols: set<Symbol>)
    ensures forall s, t :: s in symbols && t in symbols ==>
      (LexLess(s, t) <==> |Below(symbols, s)| < |Below(symbols, t)|)
    ensures forall t :: t in symbols ==> |Below(symbols, t)| < |symbols|
  {
    forall s, t | s in symbols && t in symbols && LexLess(s, t)
      ensures |Below(symbols, s)| < |Below(symbols, t)|
    {
      forall u | u in Below(symbols, s) ensures u in Below(symbols, t) {
        LexLessTransitive(u, s, t);
      }
      LexLessIrreflexive(s);
      ProperSubsetCardinality(Below(symbols, s), Below(symbols, t), s);
    }
    forall s, t | s in symbols && t in symbols && !LexLess(s, t)
      ensures |Below(symbols, t)| <= |Below(symbols, s)|
    {
      if s != t {
        LexLessTotal(s, t);
        forall u | u in Below(symbols, t) ensures u in Below(symbols, s) {
          LexLessTransitive(u, t, s);
        }
        LexLessIrreflexive(t);
        ProperSubsetCardinality(Below(symbols, t), Below(symbols, s), t);
      }
    }
    forall t | t in symbols
      ensures |Below(symbols, t)| < |symbols|
    {
      LexLessIrreflexive(t);
      ProperSubsetCardinality(Below(symbols, t), symbols, t);
    }
  }

  /** The index the source builds by enumerating the sorted symbols: every
      symbol is mapped to the number of symbols that sort before it. */
  function Indexed(symbols: set<Symbol>): (vocab: map<Symbol, nat>)
    ensures vocab.Keys == symbols
    ensures forall s, t :: s in vocab && t in vocab ==> (LexLess(s, t) <==> vocab[s] < vocab[t])
    ensures forall t :: t in vocab ==> vocab[t] < |symbols|
  {
    RanksFollowOrder(symbols);
    map t | t in symbols :: |Below(symbols, t)|
  }

  /** The ranks 0 .. n-1. */
  function Ranks(n: nat): (r: set<nat>)
    ensures forall i: nat :: i in r <==> i < n
    ensures |r| == n
  {
    if n == 0 then {}
    else
      var below := Ranks(n - 1);
      assert n - 1 !in below;
      below + {n - 1}
  }

  /** The ranks `vocab` gives to the symbols of `s`. */
  function Image(s: set<Symbol>, vocab: map<Symbol, nat>): set<nat>
    requires s <= vocab.Keys
  {
    set t | t in s :: vocab[t]
  }

  /** Distinct symbols get distinct ranks, so there are as many ranks as
      symbols. */
  lemma {:induction false} ImageSize(s: set<Symbol>, vocab: map<Symbol, nat>)
    requires s <= vocab.Keys
    requires forall a, b :: a in s && b in s && a != b ==> vocab[a] != vocab[b]
    ensures |Image(s, vocab)| == |s|
    decreases |s|
  {
    if s != {} {
      var x :| x in s;
      var rest := s - {x};
      ImageSize(rest, vocab);
      assert Image(s, vocab) == Image(rest, vocab) + {vocab[x]};
      assert vocab[x] !in Image(rest, vocab);
    }
  }

  /** Distinct symbols get distinct ranks. */
  lemma IndexedIsInjective(symbols: set<Symbol>)
    ensures forall a, b :: a in symbols && b in symbols && a != b ==> Indexed(symbols)[a] != Indexed(symbols)[b]
  {
    var vocab := Indexed(symbols);
    forall a, b | a in symbols && b in symbols && a != b
      ensures vocab[a] != vocab[b]
    {
      LexLessTotal(a, b);
    }
  }

  /** An injective numbering of n symbols by ranks below n uses every rank
      below n. */
  lemma InjectiveRanksAreOnto(symbols: set<Symbol>, vocab: map<Symbol, nat>)
    requires symbols <= vocab.Keys
    requires forall a, b :: a in symbols && b in symbols && a != b ==> vocab[a] != vocab[b]
    requires forall t :: t in symbols ==> vocab[t] < |symbols|
    ensures Image(symbols, vocab) == Ranks(|symbols|)
  {
    ImageSize(symbols, vocab);
    var image, ranks := Image(symbols, vocab), Ranks(|symbols|);
    assert image <= ranks;
    if image != ranks {
      var r :| r in ranks && r !in image;
      SubsetCardinality(image, ranks - {r});
    }
  }

  /** The vocabulary numbers its symbols 0 .. n-1 without gaps: the ranks
      it gives are exactly 0 .. n-1, each to one symbol. */
  lemma IndexedIsOnto(symbols: set<Symbol>)
    ensures Image(symbols, Indexed(symbols)) == Ranks(|symbols|)
  {
    IndexedIsInjective(symbols);
    InjectiveRanksAreOnto(symbols, Indexed(symbols));
  }

  /** A subset is no larger than its superset. */
  lemma {:induction false} SubsetCardinality<T>(a: set<T>, b: set<T>)
    requires a <= b
    ensures |a| <= |b|
    decreases |b|
  {
    if a != {} {
      var x :| x in a;
      SubsetCardinality(a - {x}, b - {x});
    }
  }
}
