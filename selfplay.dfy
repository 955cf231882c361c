/** The self-play match of main.cpp: every round each player is fed the other's last
    move, predicts the other's next move, and plays the counter-move; the round is
    scored for one of the two players or as a draw. */
module SelfPlay {
  import opened HtmHelper
  import opened Game
  import opened Players

  /** The number of rounds main plays. */
  const NUM_GAMES: nat := 1000 * 100

  /** A player seen from outside: the distribution it outputs after being fed the given
      opponent moves, the latest last. */
  type Predictor = seq<int> -> Distribution

  datatype Round = Round(rnnMove: int, htmMove: int)

  datatype Tally = Tally(rnnWin: nat, draw: nat, htmWin: nat)

  function Total(t: Tally): nat
  {
    t.rnnWin + t.draw + t.htmWin
  }

  /** Scoring one round: a payoff of 1 is a win for the recurrent-network player, 0 a
      draw, anything else a win for the HTM player. Exactly one counter goes up. */
  function Score(t: Tally, w: int): (t': Tally)
    ensures Total(t') == Total(t) + 1
    ensures t'.rnnWin == t.rnnWin + (if w == 1 then 1 else 0)
    ensures t'.draw == t.draw + (if w == 0 then 1 else 0)
    ensures t'.htmWin == t.htmWin + (if w != 1 && w != 0 then 1 else 0)
  {
    if w == 1 then t.(rnnWin := t.rnnWin + 1)
    else if w == 0 then t.(draw := t.draw + 1)
    else t.(htmWin := t.htmWin + 1)
  }

  /** The counters after the rounds `rs`. */
  function TallyOf(rs: seq<Round>): Tally
  {
    if rs == [] then Tally(0, 0, 0)
    else
      var r := rs[|rs| - 1];
      Score(TallyOf(rs[..|rs| - 1]), Winner(r.rnnMove, r.htmMove))
  }

  /** Playing one more round scores it on top of the earlier rounds. */
  lemma TallyOfSnoc(rs: seq<Round>, r: Round)
    ensures TallyOf(rs + [r]) == Score(TallyOf(rs), Winner(r.rnnMove, r.htmMove))
  {
    assert (rs + [r])[..|rs|] == rs;
  }

  /** Every round is counted exactly once. */
  lemma {:induction false} TallyTotal(rs: seq<Round>)
    ensures Total(TallyOf(rs)) == |rs|
  {
    if rs != [] {
      TallyTotal(rs[..|rs| - 1]);
    }
  }

  /** The values of htm_last_move at the start of each round of `rs` and after the last:
      the moves the recurrent-network player is fed. */
  function HtmLastMoves(rs: seq<Round>): (ms: seq<int>)
    ensures |ms| == |rs| + 1
  {
    [0] + seq(|rs|, k requires 0 <= k < |rs| => rs[k].htmMove)
  }

  /** The values of rnn_last_move likewise: the moves the HTM player is fed. */
  function RnnLastMoves(rs: seq<Round>): (ms: seq<int>)
    ensures |ms| == |rs| + 1
  {
    [0] + seq(|rs|, k requires 0 <= k < |rs| => rs[k].rnnMove)
  }

  /** The round played after the rounds `rs`: each player is fed the other's last move and
      counters the first largest entry of what it then outputs. */
  function NextRound(rnn: Predictor, htm: Predictor, rs: seq<Round>): (r: Round)
    ensures IsMove(r.rnnMove) && IsMove(r.htmMove)
  {
    Round(PredToMove(FirstMaxIndex(rnn(HtmLastMoves(rs)))), PredToMove(FirstMaxIndex(htm(RnnLastMoves(rs)))))
  }

  /** The first k rounds of a match between the two predictors. */
  function Rounds(rnn: Predictor, htm: Predictor, k: nat): (rs: seq<Round>)
    ensures |rs| == k
    ensures forall j :: 0 <= j < k ==> IsMove(rs[j].rnnMove) && IsMove(rs[j].htmMove)
  {
    if k == 0 then []
    else
      var prev := Rounds(rnn, htm, k - 1);
      prev + [NextRound(rnn, htm, prev)]
  }

  /** The rounds are played one after another: a longer match starts with a shorter one. */
  lemma {:induction false} RoundsPrefix(rnn: Predictor, htm: Predictor, j: nat, k: nat)
    requires j <= k
    ensures Rounds(rnn, htm, k)[..j] == Rounds(rnn, htm, j)
    decreases k
  {
    if j < k {
      RoundsPrefix(rnn, htm, j, k - 1);
      assert Rounds(rnn, htm, k)[..k - 1] == Rounds(rnn, htm, k - 1);
    }
  }

  // ---------------------------------------------------------------------------
  // The two players as predictors
  // ---------------------------------------------------------------------------

  /** The one-hot inputs of a sequence of moves. */
  function OneHots(ms: seq<int>): (v: seq<seq<real>>)
    ensures |v| == |ms|
    ensures forall k :: 0 <= k < |ms| ==> v[k] == OneHot(ms[k])
  {
    seq(|ms|, k requires 0 <= k < |ms| => OneHot(ms[k]))
  }

  /** The recurrent-network player whose network answers with `respond` and that has
      already been fed `seen0`: fed the moves `ms`, it outputs the network's answer to
      the calls RnnCalls prescribes. */
  function RnnPredictor(respond: seq<NetCall> -> Distribution, seen0: seq<seq<real>>): Predictor
  {
    ms => respond(RnnCalls(seen0 + OneHots(ms)))
  }

  /** The calls the HTM player makes to its temporal memory when fed the moves `ms`
      (only moves ever reach it; anything else is recorded as a reset). */
  function HtmCalls(ms: seq<int>): (calls: seq<EngineCall<seq<nat>>>)
    ensures |calls| == |ms|
    ensures forall k :: 0 <= k < |ms| && IsMove(ms[k]) ==> calls[k] == ComputeCall(TrueIndices(Encode(ms[k])), true)
  {
    seq(|ms|, k requires 0 <= k < |ms| =>
      if IsMove(ms[k]) then ComputeCall(TrueIndices(Encode(ms[k])), true) else ResetCall)
  }

  /** The HTM player whose temporal memory answers with `respond` and has already
      received `calls0`: fed the moves `ms`, it outputs the scores of the columns the
      memory then predicts. */
  function HtmPredictor(respond: seq<EngineCall<seq<nat>>> -> seq<nat>, calls0: seq<EngineCall<seq<nat>>>): Predictor
  {
    ms => Scores(PredictedColumns(respond(calls0 + HtmCalls(ms)), TP_DEPTH, 3 * ENCODE_WIDTH))
  }

  /** The round after the rounds of a match extends the match by one round. */
  lemma NextRoundExtends(rnn: Predictor, htm: Predictor, rs: seq<Round>, r: Round)
    requires rs == Rounds(rnn, htm, |rs|)
    requires r == NextRound(rnn, htm, rs)
    ensures rs + [r] == Rounds(rnn, htm, |rs| + 1)
  {
  }

  /** After one more round, the moves each player has been fed so far are the moves fed
      before it followed by the other's move of that round. */
  lemma LastMovesExtend(rs: seq<Round>, r: Round)
    ensures HtmLastMoves(rs + [r])[..|rs| + 1] == HtmLastMoves(rs)
    ensures RnnLastMoves(rs + [r])[..|rs| + 1] == RnnLastMoves(rs)
    ensures HtmLastMoves(rs + [r])[|rs| + 1] == r.htmMove
    ensures RnnLastMoves(rs + [r])[|rs| + 1] == r.rnnMove
  {
    assert HtmLastMoves(rs + [r])[..|rs| + 1] == HtmLastMoves(rs);
    assert RnnLastMoves(rs + [r])[..|rs| + 1] == RnnLastMoves(rs);
  }

  /** Feeding one more move to a player that has been fed all moves of `ms` but the last
      makes it a player fed all of `ms`. */
  lemma OneHotsSnoc(seen0: seq<seq<real>>, ms: seq<int>)
    requires ms != []
    ensures (seen0 + OneHots(ms[..|ms| - 1])) + [OneHot(ms[|ms| - 1])] == seen0 + OneHots(ms)
  {
    assert OneHots(ms[..|ms| - 1]) + [OneHot(ms[|ms| - 1])] == OneHots(ms);
  }

  lemma HtmCallsSnoc(calls0: seq<EngineCall<seq<nat>>>, ms: seq<int>)
    requires ms != [] && IsMove(ms[|ms| - 1])
    ensures (calls0 + HtmCalls(ms[..|ms| - 1])) + [ComputeCall(TrueIndices(Encode(ms[|ms| - 1])), true)]
      == calls0 + HtmCalls(ms)
  {
    assert HtmCalls(ms[..|ms| - 1]) + [ComputeCall(TrueIndices(Encode(ms[|ms| - 1])), true)] == HtmCalls(ms);
  }

  /** One more round of the match between the two players, from the calls their engines
      have received once it is played: the round is the next round of Rounds, each
      player has then been fed the other's moves of the longer match, and the round is
      scored on top of the earlier ones. */
  lemma RoundStep(rnn: Predictor, htm: Predictor,
                  netRespond: seq<NetCall> -> Distribution, seen0: seq<seq<real>>,
                  tmRespond: seq<EngineCall<seq<nat>>> -> seq<nat>, calls0: seq<EngineCall<seq<nat>>>,
                  rs: seq<Round>, seen: seq<seq<real>>, calls: seq<EngineCall<seq<nat>>>,
                  rnnMove: int, htmMove: int)
    requires rnn == RnnPredictor(netRespond, seen0) && htm == HtmPredictor(tmRespond, calls0)
    requires rs == Rounds(rnn, htm, |rs|)
    requires IsMove(RnnLastMoves(rs)[|rs|])
    requires seen == seen0 + OneHots(HtmLastMoves(rs)[..|rs|]) + [OneHot(HtmLastMoves(rs)[|rs|])]
    requires calls == calls0 + HtmCalls(RnnLastMoves(rs)[..|rs|]) + [ComputeCall(TrueIndices(Encode(RnnLastMoves(rs)[|rs|])), true)]
    requires rnnMove == PredToMove(FirstMaxIndex(netRespond(RnnCalls(seen))))
    requires htmMove == PredToMove(FirstMaxIndex(Scores(PredictedColumns(tmRespond(calls), TP_DEPTH, 3 * ENCODE_WIDTH))))
    ensures
      var rs' := rs + [Round(rnnMove, htmMove)];
      rs' == Rounds(rnn, htm, |rs'|)
      && seen == seen0 + OneHots(HtmLastMoves(rs')[..|rs'|])
      && calls == calls0 + HtmCalls(RnnLastMoves(rs')[..|rs'|])
      && RnnLastMoves(rs')[|rs'|] == rnnMove && HtmLastMoves(rs')[|rs'|] == htmMove
      && TallyOf(rs') == Score(TallyOf(rs), Winner(rnnMove, htmMove))
  {
    var hs, ns := HtmLastMoves(rs), RnnLastMoves(rs);
    var r := Round(rnnMove, htmMove);
    assert hs[..|hs| - 1] == hs[..|rs|] && ns[..|ns| - 1] == ns[..|rs|];
    OneHotsSnoc(seen0, hs);
    HtmCallsSnoc(calls0, ns);
    assert rnn(hs) == netRespond(RnnCalls(seen));
    assert htm(ns) == Scores(PredictedColumns(tmRespond(calls), TP_DEPTH, 3 * ENCODE_WIDTH));
    NextRoundExtends(rnn, htm, rs, r);
    LastMovesExtend(rs, r);
    TallyOfSnoc(rs, r);
  }

  /** The moves of one round of main's loop: each player is fed the other's last move and
      plays the counter to the first largest entry of its output. */
  method PlayRound(p1: RNNPlayer, p2: HTMPlayer, rnnLastMove: int, htmLastMove: int)
    returns (rnnMove: int, htmMove: int)
    requires p1.Valid() && p2.Valid() && IsMove(rnnLastMove) && IsMove(htmLastMove)
    modifies p1, p1.nn, p2.tm.tm
    ensures p1.Valid() && p2.Valid()
    ensures p1.seen == old(p1.seen) + [OneHot(htmLastMove)]
    ensures p2.tm.tm.calls == old(p2.tm.tm.calls) + [ComputeCall(TrueIndices(Encode(rnnLastMove)), true)]
    ensures rnnMove == PredToMove(FirstMaxIndex(p1.nn.respond(RnnCalls(p1.seen))))
    ensures htmMove == PredToMove(FirstMaxIndex(Scores(PredictedColumns(p2.tm.tm.Output(), TP_DEPTH, 3 * ENCODE_WIDTH))))
  {
    var rnnOut := p1.ComputeMove(htmLastMove);
    var rnnPred := Argmax(rnnOut);
    var htmOut := p2.ComputeMove(rnnLastMove, true);
    var htmPred := Argmax(htmOut);
    rnnMove := PredToMove(rnnPred);
    htmMove := PredToMove(htmPred);
  }

  /** The round loop of main: `numGames` rounds between the two players, keeping each
      side's last move and the three counters. */
  method PlayGames(p1: RNNPlayer, p2: HTMPlayer, numGames: nat)
    returns (rnnWin: nat, draw: nat, htmWin: nat, rnnLastMove: int, htmLastMove: int)
    requires p1.Valid() && p2.Valid()
    modifies p1, p1.nn, p2.tm.tm
    ensures p1.Valid() && p2.Valid()
    ensures
      var rs := Rounds(RnnPredictor(p1.nn.respond, old(p1.seen)), HtmPredictor(p2.tm.tm.respond, old(p2.tm.tm.calls)), numGames);
      Tally(rnnWin, draw, htmWin) == TallyOf(rs)
      && rnnLastMove == RnnLastMoves(rs)[numGames] && htmLastMove == HtmLastMoves(rs)[numGames]
      && p1.seen == old(p1.seen) + OneHots(HtmLastMoves(rs)[..numGames])
      && p2.tm.tm.calls == old(p2.tm.tm.calls) + HtmCalls(RnnLastMoves(rs)[..numGames])
    ensures rnnWin + draw + htmWin == numGames
  {
    ghost var seen0 := p1.seen;
    ghost var calls0 := p2.tm.tm.calls;
    ghost var rnn := RnnPredictor(p1.nn.respond, seen0);
    ghost var htm := HtmPredictor(p2.tm.tm.respond, calls0);
    ghost var rs: seq<Round> := [];
    rnnLastMove, htmLastMove := 0, 0;
    rnnWin, draw, htmWin := 0, 0, 0;
    var i := 0;
    while i < numGames
      invariant 0 <= i <= numGames && |rs| == i
      invariant rs == Rounds(rnn, htm, i)
      invariant p1.Valid() && p2.Valid()
      invariant Tally(rnnWin, draw, htmWin) == TallyOf(rs)
      invariant rnnLastMove == RnnLastMoves(rs)[i] && htmLastMove == HtmLastMoves(rs)[i]
      invariant p1.seen == seen0 + OneHots(HtmLastMoves(rs)[..i])
      invariant p2.tm.tm.calls == calls0 + HtmCalls(RnnLastMoves(rs)[..i])
    {
      var rnnMove, htmMove := PlayRound(p1, p2, rnnLastMove, htmLastMove);
      var winnerAlgo := Winner(rnnMove, htmMove);
      RoundStep(rnn, htm, p1.nn.respond, seen0, p2.tm.tm.respond, calls0, rs, p1.seen, p2.tm.tm.calls, rnnMove, htmMove);
      rs := rs + [Round(rnnMove, htmMove)];
      rnnLastMove := rnnMove;
      htmLastMove := htmMove;

      if winnerAlgo == 1 {
        rnnWin := rnnWin + 1;
      } else if winnerAlgo == 0 {
        draw := draw + 1;
      } else {
        htmWin := htmWin + 1;
      }
      i := i + 1;
    }
    TallyTotal(rs);
  }

  /** main: two fresh players, NUM_GAMES rounds. */
  method Match(netRespond: seq<NetCall> -> Distribution, tmRespond: seq<EngineCall<seq<nat>>> -> seq<nat>)
    returns (rnnWin: nat, draw: nat, htmWin: nat)
    requires forall h, k :: 0 <= k < |tmRespond(h)| ==> tmRespond(h)[k] < 3 * ENCODE_WIDTH * TP_DEPTH
    ensures Tally(rnnWin, draw, htmWin) == TallyOf(Rounds(RnnPredictor(netRespond, []), HtmPredictor(tmRespond, []), NUM_GAMES))
    ensures rnnWin + draw + htmWin == NUM_GAMES
  {
    var player1 := new RNNPlayer(netRespond);
    var player2 := new HTMPlayer(tmRespond);
    var rnnLastMove, htmLastMove;
    rnnWin, draw, htmWin, rnnLastMove, htmLastMove := PlayGames(player1, player2, NUM_GAMES);
  }

  // ---------------------------------------------------------------------------
  // Matches with fixed predictions
  // ---------------------------------------------------------------------------

  /** Two players whose predictions never change replay the same round every time, and
      the whole match goes to whoever wins that round (or is drawn). */
  lemma {:induction false} FixedPredictions(rnn: Predictor, htm: Predictor, a: Distribution, b: Distribution, k: nat)
    requires forall ms :: rnn(ms) == a
    requires forall ms :: htm(ms) == b
    ensures forall j :: 0 <= j < k ==>
      Rounds(rnn, htm, k)[j] == Round(PredToMove(FirstMaxIndex(a)), PredToMove(FirstMaxIndex(b)))
    ensures TallyOf(Rounds(rnn, htm, k)) ==
      var w := Winner(PredToMove(FirstMaxIndex(a)), PredToMove(FirstMaxIndex(b)));
      Tally(if w == 1 then k else 0, if w == 0 then k else 0, if w != 1 && w != 0 then k else 0)
  {
    if k > 0 {
      FixedPredictions(rnn, htm, a, b, k - 1);
      var rs := Rounds(rnn, htm, k);
      assert rs[..k - 1] == Rounds(rnn, htm, k - 1);
    }
  }

  /** A temporal memory that predicts no cell makes the HTM player score every move 0. */
  lemma SilentScores()
    ensures Scores(PredictedColumns([], TP_DEPTH, 3 * ENCODE_WIDTH)) == [0.0, 0.0, 0.0]
  {
    var silent := PredictedColumns([], TP_DEPTH, 3 * ENCODE_WIDTH);
    forall k | 0 <= k < 3
      ensures Scores(silent)[k] == 0.0
    {
      PooledAt(3, ENCODE_WIDTH, silent, k);
      CountTrueConstant(silent[k * ENCODE_WIDTH .. k * ENCODE_WIDTH + ENCODE_WIDTH], false);
    }
  }

  /** A network that always predicts Rock against a temporal memory that never predicts
      anything: both players answer Paper, and every round is drawn. */
  lemma QuietEnginesDraw(seen0: seq<seq<real>>, calls0: seq<EngineCall<seq<nat>>>, k: nat)
    ensures var rs := Rounds(RnnPredictor(_ => OneHot(Rock), seen0), HtmPredictor(_ => [], calls0), k);
      (forall j :: 0 <= j < k ==> rs[j] == Round(Paper, Paper)) && TallyOf(rs) == Tally(0, k, 0)
  {
    var zero: Distribution := [0.0, 0.0, 0.0];
    SilentScores();
    OneHotArgmax(Rock);
    FirstMaxIndexIsFirstMax(zero);
    FirstMaxUnique(zero, 0, FirstMaxIndex(zero));
    FixedPredictions(RnnPredictor(_ => OneHot(Rock), seen0), HtmPredictor(_ => [], calls0), OneHot(Rock), zero, k);
  }
}
