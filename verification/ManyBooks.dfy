/** Orders spread over several books: what `crossings` totals over them is the
    greatest number of pairs that can be matched within books. */
module ManyBooks {
  import opened RestingBook
  import opened RestingBookOptimal

  datatype Arrivals = Arrivals(buys: seq<nat>, sells: seq<nat>)

  ghost predicate SameRounds(books: seq<Arrivals>, rounds: nat) {
    forall i :: 0 <= i < |books| ==> |books[i].buys| == |books[i].sells| == rounds
  }

  /** All the books' arrivals in one. */
  ghost function Merged(books: seq<Arrivals>, rounds: nat): (r: Arrivals)
    requires SameRounds(books, rounds)
    ensures |r.buys| == |r.sells| == rounds
  {
    if books == [] then Arrivals(seq(rounds, _ => 0), seq(rounds, _ => 0))
    else
      var (rest, last) := (Merged(books[..|books| - 1], rounds), books[|books| - 1]);
      Arrivals(Plus(rest.buys, last.buys), Plus(rest.sells, last.sells))
  }

  /** What `crossings` totals over its books, before dividing by the years. */
  function CrossedByBooks(books: seq<Arrivals>, rest: nat, rounds: nat): nat
    requires SameRounds(books, rounds)
  {
    if books == [] then 0
    else
      var last := books[|books| - 1];
      CrossedByBooks(books[..|books| - 1], rest, rounds) + Crossed(last.buys, last.sells, rest)
  }

  /** A buy and a sell of one book, by the rounds they arrived in. */
  datatype Pair = Pair(book: nat, buy: nat, sell: nat)

  /** The pairs of one book. */
  ghost function Of(pairs: seq<Pair>, book: nat): (p: Matching)
    ensures |p.buyRounds| == |p.sellRounds|
  {
    if pairs == [] then Matching([], [])
    else
      var (init, last) := (Of(pairs[..|pairs| - 1], book), pairs[|pairs| - 1]);
      if last.book == book then Matching(init.buyRounds + [last.buy], init.sellRounds + [last.sell]) else init
  }

  /** Every pair is of some book, and each book's pairs are a matching of its own arrivals. */
  ghost predicate MatchesByBook(books: seq<Arrivals>, rest: nat, rounds: nat, pairs: seq<Pair>) {
    && (forall k :: 0 <= k < |pairs| ==> pairs[k].book < |books|)
    && forall b :: 0 <= b < |books| ==> IsMatching(books[b].buys, books[b].sells, rest, rounds, Of(pairs, b))
  }

  /** Over any number of books the loop crosses as many pairs as can be matched
      at all, each pair within one book, and no more. */
  method Crossings(books: seq<Arrivals>, rest: nat, rounds: nat) returns (total: nat)
    requires SameRounds(books, rounds)
    ensures exists pairs :: MatchesByBook(books, rest, rounds, pairs) && |pairs| == total
    ensures forall pairs :: MatchesByBook(books, rest, rounds, pairs) ==> |pairs| <= total
    ensures total == CrossedByBooks(books, rest, rounds)
    ensures total <= Crossed(Merged(books, rounds).buys, Merged(books, rounds).sells, rest)
  {
    total := 0;
    for i := 0 to |books|
      invariant total == CrossedByBooks(books[..i], rest, rounds)
    {
      assert books[..i + 1][..i] == books[..i];
      var crossed := CrossingsOfBook(books[i].buys, books[i].sells, rest);
      total := total + crossed;
    }
    assert books[..|books|] == books;
    MergingNeverCosts(books, rest, rounds);
    ghost var pairs := BooksAreMatched(books, rest, rounds);
    forall other | MatchesByBook(books, rest, rounds, other)
      ensures |other| <= total
    {
      NoPairsBeatTheBooks(books, rest, rounds, other);
    }
  }

  lemma {:induction false} OfConcat(a: seq<Pair>, b: seq<Pair>, book: nat)
    ensures Of(a + b, book).buyRounds == Of(a, book).buyRounds + Of(b, book).buyRounds
    ensures Of(a + b, book).sellRounds == Of(a, book).sellRounds + Of(b, book).sellRounds
  {
    if b == [] {
      assert a + b == a;
    } else {
      assert (a + b)[..|a + b| - 1] == a + b[..|b| - 1];
      OfConcat(a, b[..|b| - 1], book);
    }
  }

  /** A matching as pairs of one book. */
  ghost function Tagged(p: Matching, book: nat): (pairs: seq<Pair>)
    requires |p.buyRounds| == |p.sellRounds|
    ensures |pairs| == |p.buyRounds|
  {
    seq(|p.buyRounds|, k requires 0 <= k < |p.buyRounds| => Pair(book, p.buyRounds[k], p.sellRounds[k]))
  }

  lemma {:induction false} OfTagged(p: Matching, tag: nat, book: nat)
    requires |p.buyRounds| == |p.sellRounds|
    ensures Of(Tagged(p, tag), book) == if tag == book then p else Matching([], [])
    decreases |p.buyRounds|
  {
    var n := |p.buyRounds| - 1;
    if n >= 0 {
      var init := Matching(p.buyRounds[..n], p.sellRounds[..n]);
      assert Tagged(p, tag)[..n] == Tagged(init, tag);
      OfTagged(init, tag, book);
    }
  }

  /** Pairs of earlier books only have no pair of a later one. */
  lemma {:induction false} OfLater(pairs: seq<Pair>, book: nat)
    requires forall k :: 0 <= k < |pairs| ==> pairs[k].book < book
    ensures Of(pairs, book) == Matching([], [])
  {
    if pairs != [] {
      OfLater(pairs[..|pairs| - 1], book);
    }
  }

  lemma {:induction false} BooksAreMatched(books: seq<Arrivals>, rest: nat, rounds: nat) returns (pairs: seq<Pair>)
    requires SameRounds(books, rounds)
    ensures MatchesByBook(books, rest, rounds, pairs) && |pairs| == CrossedByBooks(books, rest, rounds)
  {
    if books == [] {
      pairs := [];
    } else {
      var n := |books| - 1;
      var (init, last) := (books[..n], books[n]);
      var earlier := BooksAreMatched(init, rest, rounds);
      var p := RunIsMatching(last.buys, last.sells, rest, rounds);
      pairs := earlier + Tagged(p, n);
      AddBook(books, rest, rounds, earlier, p);
    }
  }

  lemma AddBook(books: seq<Arrivals>, rest: nat, rounds: nat, earlier: seq<Pair>, p: Matching)
    requires books != [] && MatchesByBook(books[..|books| - 1], rest, rounds, earlier)
    requires IsMatching(books[|books| - 1].buys, books[|books| - 1].sells, rest, rounds, p)
    ensures MatchesByBook(books, rest, rounds, earlier + Tagged(p, |books| - 1))
  {
    var n := |books| - 1;
    var pairs := earlier + Tagged(p, n);
    forall b | 0 <= b < |books|
      ensures IsMatching(books[b].buys, books[b].sells, rest, rounds, Of(pairs, b))
    {
      hide Of, Tagged, IsMatching;
      OfConcat(earlier, Tagged(p, n), b);
      OfTagged(p, n, b);
      if b == n {
        OfLater(earlier, n);
        assert Of(pairs, b) == p;
      } else {
        assert Of(pairs, b) == Of(earlier, b) && books[b] == books[..n][b];
      }
    }
  }

  /** The pairs without those of one book. */
  ghost function Without(pairs: seq<Pair>, book: nat): (r: seq<Pair>)
    ensures |r| == |pairs| - |Of(pairs, book).buyRounds|
    ensures forall k :: 0 <= k < |r| ==> r[k] in pairs && r[k].book != book
  {
    if pairs == [] then []
    else
      var (init, last) := (Without(pairs[..|pairs| - 1], book), pairs[|pairs| - 1]);
      if last.book == book then init else init + [last]
  }

  lemma {:induction false} OfWithout(pairs: seq<Pair>, removed: nat, book: nat)
    requires removed != book
    ensures Of(Without(pairs, removed), book) == Of(pairs, book)
  {
    if pairs != [] {
      var (init, last) := (Without(pairs[..|pairs| - 1], removed), pairs[|pairs| - 1]);
      OfWithout(pairs[..|pairs| - 1], removed, book);
      assert (init + [last])[..|init|] == init;
    }
  }

  lemma {:induction false} NoPairsBeatTheBooks(books: seq<Arrivals>, rest: nat, rounds: nat, pairs: seq<Pair>)
    requires SameRounds(books, rounds) && MatchesByBook(books, rest, rounds, pairs)
    ensures |pairs| <= CrossedByBooks(books, rest, rounds)
  {
    if books == [] {
      assert pairs == [];
    } else {
      var n := |books| - 1;
      var earlier := Without(pairs, n);
      DropBook(books, rest, rounds, pairs);
      NoPairsBeatTheBooks(books[..n], rest, rounds, earlier);
      NoMatchingBeatsGreedy(books[n].buys, books[n].sells, rest, Of(pairs, n));
      assert |pairs| == |earlier| + |Of(pairs, n).buyRounds|;
      hide Of, Without, MatchesByBook, IsMatching, Crossed;
    }
  }

  lemma DropBook(books: seq<Arrivals>, rest: nat, rounds: nat, pairs: seq<Pair>)
    requires books != [] && MatchesByBook(books, rest, rounds, pairs)
    ensures MatchesByBook(books[..|books| - 1], rest, rounds, Without(pairs, |books| - 1))
  {
    var n := |books| - 1;
    var (init, earlier) := (books[..n], Without(pairs, n));
    forall b | 0 <= b < |init|
      ensures IsMatching(init[b].buys, init[b].sells, rest, rounds, Of(earlier, b))
    {
      OfWithout(pairs, n, b);
      assert init[b] == books[b];
    }
    hide Of, IsMatching;
    forall k | 0 <= k < |earlier|
      ensures earlier[k].book < |init|
    {
      assert earlier[k] in pairs;
    }
  }

  lemma {:induction false} MergingNeverCosts(books: seq<Arrivals>, rest: nat, rounds: nat)
    requires SameRounds(books, rounds)
    ensures CrossedByBooks(books, rest, rounds) <=
            Crossed(Merged(books, rounds).buys, Merged(books, rounds).sells, rest)
  {
    if books != [] {
      var (init, last) := (books[..|books| - 1], books[|books| - 1]);
      MergingNeverCosts(init, rest, rounds);
      var merged := Merged(init, rounds);
      SplittingNeverPays(merged.buys, merged.sells, last.buys, last.sells, rest);
    }
  }
}
