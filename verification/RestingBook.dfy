/** Crossings of a book whose orders rest for some rounds before they expire.

    Each round the live buys and sells are matched as far as they go, oldest
    first, and the survivors age. The module proves that this greedy loop
    crosses as many orders as any matching of the same arrivals could. */
module RestingBook {

  /** Sum of a list from index k on. */
  function From(s: seq<nat>, k: nat): nat
    requires k <= |s|
    decreases |s| - k
  {
    if k == |s| then 0 else s[k] + From(s, k + 1)
  }

  function Sum(s: seq<nat>): nat { From(s, 0) }

  function Min(a: nat, b: nat): nat { if a < b then a else b }

  /** Removes `matched` orders from the lowest slots first; slot i has i rounds of life left. */
  function Take(live: seq<nat>, matched: nat): (r: seq<nat>)
    ensures |r| == |live|
  {
    if live == [] then []
    else
      var take := Min(live[0], matched);
      [live[0] - take] + Take(live[1..], matched - take)
  }

  /** How much is still to be matched once the first i slots were visited. */
  function Left(live: seq<nat>, matched: nat, i: nat): nat
    requires i <= |live|
  {
    if i == 0 then matched else Left(live[1..], matched - Min(live[0], matched), i - 1)
  }

  lemma {:induction false} TakeAt(live: seq<nat>, matched: nat, i: nat)
    requires i < |live|
    ensures Take(live, matched)[i] == live[i] - Min(live[i], Left(live, matched, i))
    ensures Left(live, matched, i + 1) == Left(live, matched, i) - Min(live[i], Left(live, matched, i))
  {
    if i > 0 {
      TakeAt(live[1..], matched - Min(live[0], matched), i - 1);
    }
  }

  /** The survivors, one round older. */
  function Aged(live: seq<nat>, matched: nat): seq<nat> {
    var rest := Take(live, matched);
    (if rest == [] then [] else rest[1..]) + [0]
  }

  /** Matches in place and returns the aged survivors as a new list. */
  method Age(live: array<nat>, matched: nat) returns (aged: array<nat>)
    modifies live
    ensures live[..] == Take(old(live[..]), matched)
    ensures fresh(aged) && aged[..] == Aged(old(live[..]), matched)
  {
    TakeInPlace(live, matched);
    ghost var rest := live[..];
    var n := if live.Length == 0 then 1 else live.Length;
    aged := new nat[n];
    for j := 0 to n - 1
      invariant live[..] == rest && forall k :: 0 <= k < j ==> aged[k] == rest[k + 1]
    {
      aged[j] := live[j + 1];
    }
    aged[n - 1] := 0;
    assert aged[..] == (if rest == [] then [] else rest[1..]) + [0];
  }

  method TakeInPlace(live: array<nat>, matched: nat)
    modifies live
    ensures live[..] == Take(old(live[..]), matched)
  {
    var left := matched;
    ghost var before := live[..];
    for i := 0 to live.Length
      invariant left == Left(before, matched, i)
      invariant forall j :: 0 <= j < live.Length ==> live[j] == if j < i then Take(before, matched)[j] else before[j]
    {
      TakeAt(before, matched, i);
      var take := Min(live[i], left);
      live[i] := live[i] - take;
      left := left - take;
      if left == 0 {
        forall j | i < j < live.Length
          ensures Take(before, matched)[j] == before[j]
        {
          LeftStaysZero(before, matched, i + 1, j);
          TakeAt(before, matched, j);
        }
        break;
      }
    }
  }

  lemma {:induction false} LeftStaysZero(live: seq<nat>, matched: nat, i: nat, j: nat)
    requires i <= j <= |live| && Left(live, matched, i) == 0
    ensures Left(live, matched, j) == 0
  {
    if i < j {
      LeftStaysZero(live, matched, i, j - 1);
      TakeAt(live, matched, j - 1);
    }
  }

  // ------------------------------------------------------------- the loop

  /** The live orders of both sides at the start of a round, and the crossings so far. */
  datatype Book = Book(buys: seq<nat>, sells: seq<nat>, total: nat)

  /** New orders enter the last slot. */
  function Enter(live: seq<nat>, arrivals: nat): seq<nat>
    requires live != []
  {
    live[|live| - 1 := live[|live| - 1] + arrivals]
  }

  function Round(book: Book, newBuys: nat, newSells: nat): (r: Book)
    requires book.buys != [] && book.sells != []
    ensures |r.buys| == |book.buys| && |r.sells| == |book.sells|
  {
    var (b, s) := (Enter(book.buys, newBuys), Enter(book.sells, newSells));
    var m := Min(Sum(b), Sum(s));
    Book(Aged(b, m), Aged(s, m), book.total + m)
  }

  /** The book after the first t rounds. */
  function After(buys: seq<nat>, sells: seq<nat>, rest: nat, t: nat): (r: Book)
    requires t <= |buys| == |sells|
    ensures |r.buys| == |r.sells| == rest + 1
  {
    if t == 0 then Book(seq(rest + 1, _ => 0), seq(rest + 1, _ => 0), 0)
    else Round(After(buys, sells, rest, t - 1), buys[t - 1], sells[t - 1])
  }

  function Crossed(buys: seq<nat>, sells: seq<nat>, rest: nat): nat
    requires |buys| == |sells|
  {
    After(buys, sells, rest, |buys|).total
  }

  lemma AfterOneMore(buys: seq<nat>, sells: seq<nat>, rest: nat, t: nat)
    requires t < |buys| == |sells|
    ensures After(buys, sells, rest, t + 1) == Round(After(buys, sells, rest, t), buys[t], sells[t])
  {
  }

  method SumOf(a: array<nat>) returns (r: nat)
    ensures r == Sum(a[..])
  {
    r := 0;
    for i := a.Length downto 0
      invariant r == From(a[..], i)
    {
      r := r + a[i];
    }
  }

  /** One round: match as far as it goes, oldest first, then age the survivors. */
  method RoundInPlace(liveBuys: array<nat>, liveSells: array<nat>, newBuys: nat, newSells: nat, ghost total: nat)
    returns (matched: nat, agedBuys: array<nat>, agedSells: array<nat>)
    requires liveBuys != liveSells && liveBuys.Length > 0 && liveSells.Length > 0
    modifies liveBuys, liveSells
    ensures fresh(agedBuys) && fresh(agedSells) && agedBuys != agedSells
    ensures Book(agedBuys[..], agedSells[..], total + matched) ==
            Round(Book(old(liveBuys[..]), old(liveSells[..]), total), newBuys, newSells)
  {
    var (lastBuy, lastSell) := (liveBuys.Length - 1, liveSells.Length - 1);
    liveBuys[lastBuy] := liveBuys[lastBuy] + newBuys;
    liveSells[lastSell] := liveSells[lastSell] + newSells;
    assert liveBuys[..] == Enter(old(liveBuys[..]), newBuys);
    assert liveSells[..] == Enter(old(liveSells[..]), newSells);
    var b := SumOf(liveBuys);
    var s := SumOf(liveSells);
    matched := Min(b, s);
    agedBuys := Age(liveBuys, matched);
    agedSells := Age(liveSells, matched);
  }

  method EmptyBook(rest: nat) returns (liveBuys: array<nat>, liveSells: array<nat>)
    ensures fresh(liveBuys) && fresh(liveSells) && liveBuys != liveSells
    ensures forall buys, sells :: |buys| == |sells| ==>
              Book(liveBuys[..], liveSells[..], 0) == After(buys, sells, rest, 0)
  {
    liveBuys := new nat[rest + 1](_ => 0);
    liveSells := new nat[rest + 1](_ => 0);
    assert liveBuys[..] == seq(rest + 1, _ => 0) && liveSells[..] == seq(rest + 1, _ => 0);
  }

  /** The rounds of one book. */
  method CrossingsOfBook(buys: seq<nat>, sells: seq<nat>, rest: nat) returns (total: nat)
    requires |buys| == |sells|
    ensures total == Crossed(buys, sells, rest)
  {
    hide After, Round, Sum;
    var liveBuys, liveSells := EmptyBook(rest);
    total := 0;
    for t := 0 to |buys|
      invariant fresh(liveBuys) && fresh(liveSells) && liveBuys != liveSells
      invariant Book(liveBuys[..], liveSells[..], total) == After(buys, sells, rest, t)
    {
      AfterOneMore(buys, sells, rest, t);
      var matched, agedBuys, agedSells := RoundInPlace(liveBuys, liveSells, buys[t], sells[t], total);
      total := total + matched;
      liveBuys, liveSells := agedBuys, agedSells;
    }
  }
}
