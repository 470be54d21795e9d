/**
 * Whole conversations: what the history store holds for one user after a run
 * of exchanges, each being the user turn appended at main.py:146 and the
 * assistant turn appended at main.py:154.
 */
module Conversation {
  import opened History

  /** One user message and the reply stored after it. */
  datatype Exchange = Exchange(question: string, answer: string)

  /** The turn at index `i` of the stored form of `xs`. */
  function PairTurnAt(xs: seq<Exchange>, i: nat): Turn
    requires i < 2 * |xs|
  {
    if i % 2 == 0 then Turn(User, xs[i / 2].question) else Turn(Assistant, xs[i / 2].answer)
  }

  /** The stored turns of a run of exchanges, oldest first. */
  function PairTurns(xs: seq<Exchange>): (h: seq<Turn>)
    ensures |h| == 2 * |xs|
  {
    seq(2 * |xs|, i requires 0 <= i < 2 * |xs| => PairTurnAt(xs, i))
  }

  lemma PairTurnsIndex(xs: seq<Exchange>)
    ensures forall i :: 0 <= i < 2 * |xs| ==> PairTurns(xs)[i] == PairTurnAt(xs, i)
  {
  }

  lemma PairTurnsAlternating(xs: seq<Exchange>)
    ensures Alternating(PairTurns(xs))
  {
    PairTurnsIndex(xs);
  }

  lemma PairTurnsAppendOne(xs: seq<Exchange>, x: Exchange)
    ensures PairTurns(xs + [x]) == PairTurns(xs) + [Turn(User, x.question), Turn(Assistant, x.answer)]
  {
    var l, r := PairTurns(xs + [x]), PairTurns(xs) + [Turn(User, x.question), Turn(Assistant, x.answer)];
    PairTurnsIndex(xs + [x]);
    PairTurnsIndex(xs);
    forall i | 0 <= i < |l| ensures l[i] == r[i] {
      if i < 2 * |xs| {
        assert (xs + [x])[i / 2] == xs[i / 2];
      }
    }
  }

  lemma PairTurnsDropOldest(xs: seq<Exchange>)
    requires xs != []
    ensures PairTurns(xs)[2..] == PairTurns(xs[1..])
  {
    var l, r := PairTurns(xs)[2..], PairTurns(xs[1..]);
    PairTurnsIndex(xs);
    PairTurnsIndex(xs[1..]);
    forall i | 0 <= i < |l| ensures l[i] == r[i] {
      assert l[i] == PairTurnAt(xs, i + 2);
      assert (i + 2) / 2 == i / 2 + 1 && (i + 2) % 2 == i % 2;
    }
  }

  /**
   * One exchange as main.py:146 and main.py:154 perform it: append the user
   * turn, then the assistant turn, trimming after each.
   */
  function AfterExchange(h: seq<Turn>, x: Exchange, maxHistory: int): seq<Turn> {
    Appended(Appended(h, Turn(User, x.question), maxHistory), Turn(Assistant, x.answer), maxHistory)
  }

  /**
   * Appending to whole pairs within the bound trims at most the oldest pair
   * (or, with a bound of zero, everything).
   */
  lemma TrimAfterUserTurn(h: seq<Turn>, t: Turn, maxHistory: int)
    requires maxHistory >= 0 && |h| % 2 == 0 && |h| <= 2 * maxHistory
    ensures Trim(h + [t], maxHistory)
      == if |h| < 2 * maxHistory then h + [t] else if maxHistory == 0 then [] else h[2..] + [t]
  {
    if |h| == 2 * maxHistory && maxHistory > 0 {
      assert (h + [t])[2..] == h[2..] + [t];
    }
  }

  lemma AlternatingExtend(h: seq<Turn>, u: Turn, a: Turn)
    requires |h| % 2 == 0 && Alternating(h) && u.role == User && a.role == Assistant
    ensures Alternating(h + [u, a])
  {
    var full := h + [u, a];
    forall i | 0 <= i < |full| ensures full[i].role == (if i % 2 == 0 then User else Assistant) {
      if i < |h| { assert full[i] == h[i]; }
    }
  }

  /** The turns an exchange leaves, from whole pairs within the bound. */
  lemma ExchangeClosedForm(h: seq<Turn>, x: Exchange, maxHistory: int)
    requires maxHistory >= 0 && |h| % 2 == 0 && |h| <= 2 * maxHistory
    ensures |h| < 2 * maxHistory ==>
      AfterExchange(h, x, maxHistory) == h + [Turn(User, x.question), Turn(Assistant, x.answer)]
    ensures maxHistory == 0 ==> AfterExchange(h, x, maxHistory) == []
    ensures 0 < |h| == 2 * maxHistory ==>
      AfterExchange(h, x, maxHistory) == (h + [Turn(User, x.question), Turn(Assistant, x.answer)])[2..]
  {
    if maxHistory == 0 {
      assert Appended(h, Turn(User, x.question), maxHistory) == [];
    } else if |h| < 2 * maxHistory {
      ExchangeBelowBound(h, x, maxHistory);
    } else {
      ExchangeAtBound(h, x, maxHistory);
    }
  }

  lemma ExchangeBelowBound(h: seq<Turn>, x: Exchange, maxHistory: int)
    requires |h| % 2 == 0 && |h| < 2 * maxHistory
    ensures AfterExchange(h, x, maxHistory) == h + [Turn(User, x.question), Turn(Assistant, x.answer)]
  {
    var u, a := Turn(User, x.question), Turn(Assistant, x.answer);
    assert Appended(h, u, maxHistory) == h + [u];
    assert (h + [u]) + [a] == h + [u, a];
  }

  lemma ExchangeAtBound(h: seq<Turn>, x: Exchange, maxHistory: int)
    requires 0 < |h| == 2 * maxHistory
    ensures AfterExchange(h, x, maxHistory) == (h + [Turn(User, x.question), Turn(Assistant, x.answer)])[2..]
  {
    var u, a := Turn(User, x.question), Turn(Assistant, x.answer);
    TrimAfterUserTurn(h, u, maxHistory);
    assert Appended(h, u, maxHistory) == h[2..] + [u];
    assert (h[2..] + [u]) + [a] == (h + [u, a])[2..];
  }

  /**
   * From whole pairs within a non-negative bound, an exchange leaves whole
   * pairs within the bound, made by dropping an even number of the oldest
   * turns of `h + [user, assistant]`; with a positive bound the new pair is
   * last.
   */
  lemma ExchangeKeepsPairs(h: seq<Turn>, x: Exchange, maxHistory: int)
    requires maxHistory >= 0
    requires |h| % 2 == 0 && |h| <= 2 * maxHistory && Alternating(h)
    ensures var r := AfterExchange(h, x, maxHistory);
      && |r| % 2 == 0 && |r| <= 2 * maxHistory && Alternating(r)
      && r == (h + [Turn(User, x.question), Turn(Assistant, x.answer)])[|h| + 2 - |r|..]
      && (maxHistory >= 1 ==> r[|r| - 2..] == [Turn(User, x.question), Turn(Assistant, x.answer)])
  {
    var u, a := Turn(User, x.question), Turn(Assistant, x.answer);
    var r := AfterExchange(h, x, maxHistory);
    if |h| < 2 * maxHistory {
      ExchangeBelowBound(h, x, maxHistory);
      assert r == (h + [u, a])[0..];
      PairsFromSuffix(h, u, a, r, 0, maxHistory);
    } else if maxHistory == 0 {
      ExchangeClosedForm(h, x, maxHistory);
      assert r == (h + [u, a])[|h| + 2..];
      PairsFromSuffix(h, u, a, r, |h| + 2, maxHistory);
    } else {
      ExchangeAtBound(h, x, maxHistory);
      PairsFromSuffix(h, u, a, r, 2, maxHistory);
    }
  }

  /**
   * Dropping an even number of the oldest turns of whole pairs followed by
   * a new pair leaves whole pairs ending in the new pair, if any are left.
   */
  lemma PairsFromSuffix(h: seq<Turn>, u: Turn, a: Turn, r: seq<Turn>, k: nat, maxHistory: int)
    requires |h| % 2 == 0 && Alternating(h) && u.role == User && a.role == Assistant
    requires k <= |h| + 2 && k % 2 == 0 && r == (h + [u, a])[k..]
    requires |r| <= 2 * maxHistory
    requires maxHistory >= 1 ==> k <= |h|
    ensures |r| % 2 == 0 && Alternating(r)
    ensures r == (h + [u, a])[|h| + 2 - |r|..]
    ensures maxHistory >= 1 ==> r[|r| - 2..] == [u, a]
  {
    var full := h + [u, a];
    AlternatingExtend(h, u, a);
    EvenDropKeepsAlternation(full, k);
    if maxHistory >= 1 {
      assert r[|r| - 2..] == full[|full| - 2..];
    }
  }

  /** The stored turns after a run of exchanges starting from no history. */
  function Converse(xs: seq<Exchange>, maxHistory: int): seq<Turn> {
    if xs == [] then []
    else AfterExchange(Converse(xs[..|xs| - 1], maxHistory), xs[|xs| - 1], maxHistory)
  }

  function Min(a: nat, b: nat): nat { if a <= b then a else b }

  /** The latest `maxHistory` exchanges, or all of them when there are fewer. */
  function Window(xs: seq<Exchange>, maxHistory: nat): (w: seq<Exchange>)
    ensures |w| == Min(|xs|, maxHistory) && w == xs[|xs| - |w|..]
  {
    xs[|xs| - Min(|xs|, maxHistory)..]
  }

  /** The exchanges kept once `x` follows the kept exchanges `w`. */
  function Slide(w: seq<Exchange>, x: Exchange, maxHistory: nat): seq<Exchange> {
    if |w| < maxHistory then w + [x] else (w + [x])[1..]
  }

  lemma ExchangeOnWindow(w: seq<Exchange>, x: Exchange, maxHistory: nat)
    requires |w| <= maxHistory
    ensures AfterExchange(PairTurns(w), x, maxHistory) == PairTurns(Slide(w, x, maxHistory))
  {
    var u, a := Turn(User, x.question), Turn(Assistant, x.answer);
    var h := PairTurns(w);
    PairTurnsAlternating(w);
    ExchangeClosedForm(h, x, maxHistory);
    PairTurnsAppendOne(w, x);
    if |w| == maxHistory && maxHistory > 0 {
      PairTurnsDropOldest(w + [x]);
    }
  }

  lemma WindowStep(xs: seq<Exchange>, maxHistory: nat)
    requires xs != []
    ensures Window(xs, maxHistory) == Slide(Window(xs[..|xs| - 1], maxHistory), xs[|xs| - 1], maxHistory)
  {
    var w, x := Window(xs[..|xs| - 1], maxHistory), xs[|xs| - 1];
    if |w| < maxHistory {
      assert xs[|xs| - Min(|xs|, maxHistory)..] == w + [x];
    } else {
      assert xs[|xs| - Min(|xs|, maxHistory)..] == (w + [x])[1..];
    }
  }

  lemma ConverseStep(xs: seq<Exchange>, maxHistory: nat, w: seq<Exchange>)
    requires xs != [] && |w| <= maxHistory && Converse(xs[..|xs| - 1], maxHistory) == PairTurns(w)
    ensures Converse(xs, maxHistory) == PairTurns(Slide(w, xs[|xs| - 1], maxHistory))
  {
    ExchangeOnWindow(w, xs[|xs| - 1], maxHistory);
  }

  /** If the store held the window before the last exchange, it holds the window after it. */
  lemma ConverseSlides(xs: seq<Exchange>, maxHistory: nat, init: seq<Exchange>, w: seq<Exchange>)
    requires xs != [] && init == xs[..|xs| - 1] && w == Window(init, maxHistory)
    requires Converse(init, maxHistory) == PairTurns(w)
    ensures Converse(xs, maxHistory) == PairTurns(Window(xs, maxHistory))
  {
    ConverseStep(xs, maxHistory, w);
    WindowStep(xs, maxHistory);
  }

  /**
   * After any run of exchanges from no history, the store holds exactly the
   * latest `maxHistory` exchanges as user/assistant pairs, oldest first.
   */
  lemma {:induction false} ConverseKeepsLatest(xs: seq<Exchange>, maxHistory: nat)
    ensures Converse(xs, maxHistory) == PairTurns(Window(xs, maxHistory))
    decreases |xs|
  {
    if xs == [] {
      assert Window(xs, maxHistory) == [];
    } else {
      ConverseKeepsLatest(xs[..|xs| - 1], maxHistory);
      ConverseSlides(xs, maxHistory, xs[..|xs| - 1], Window(xs[..|xs| - 1], maxHistory));
    }
  }

  /**
   * With the default of ten pairs, eleven exchanges leave exactly exchanges
   * two to eleven: the oldest pair has been evicted.
   */
  lemma ElevenExchangesEvictOldest(xs: seq<Exchange>)
    requires |xs| == 11
    ensures Converse(xs, 10) == PairTurns(xs[1..])
    ensures |Converse(xs, 10)| == 20
  {
    ConverseKeepsLatest(xs, 10);
  }
}
