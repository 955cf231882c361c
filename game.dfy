/** The rules of rock-paper-scissors as main.cpp plays them, the decision policy that
    turns a predicted distribution over the opponent's next move into a move, and the
    encodings the two players feed their learners. */
module Game {
  import opened HtmHelper

  // ---------------------------------------------------------------------------
  // Moves
  // ---------------------------------------------------------------------------

  /** The enumerators of `Move`. */
  const Rock: int := 0
  const Paper: int := 1
  const Scissor: int := 2

  predicate IsMove(m: int)
  {
    Rock <= m <= Scissor
  }

  /** A vector with one entry per move, as both players produce. */
  type Distribution = s: seq<real> | |s| == 3 witness [0.0, 0.0, 0.0]

  // ---------------------------------------------------------------------------
  // argmax
  // ---------------------------------------------------------------------------

  /** The position of the first largest entry of `a`, scanning from the left. */
  function FirstMaxIndex(a: seq<real>): (idx: nat)
    requires |a| > 0
    ensures idx < |a|
  {
    if |a| == 1 then 0
    else
      var j := FirstMaxIndex(a[..|a| - 1]);
      if a[j] < a[|a| - 1] then |a| - 1 else j
  }

  /** `idx` holds a largest entry of `a`, and every entry before it is strictly smaller. */
  ghost predicate IsFirstMax(a: seq<real>, idx: nat)
  {
    idx < |a|
    && (forall j :: 0 <= j < |a| ==> a[j] <= a[idx])
    && (forall j :: 0 <= j < idx ==> a[j] < a[idx])
  }

  lemma {:induction false} FirstMaxIndexIsFirstMax(a: seq<real>)
    requires |a| > 0
    ensures IsFirstMax(a, FirstMaxIndex(a))
  {
    if |a| > 1 {
      var p := a[..|a| - 1];
      FirstMaxIndexIsFirstMax(p);
      assert forall j :: 0 <= j < |p| ==> a[j] == p[j];
    }
  }

  /** Only one position is the first largest entry. */
  lemma FirstMaxUnique(a: seq<real>, i: nat, j: nat)
    requires IsFirstMax(a, i) && IsFirstMax(a, j)
    ensures i == j
  {
    assert a[i] <= a[j] && a[j] <= a[i];
  }

  /** argmax as main.cpp writes it: keep the best value seen and replace it only by a
      strictly larger one. The first entry is read unconditionally, so the input must not
      be empty. */
  method Argmax(a: seq<real>) returns (idx: nat)
    requires |a| > 0
    ensures idx == FirstMaxIndex(a)
    ensures IsFirstMax(a, idx)
  {
    var v := a[0];
    idx := 0;
    var i := 1;
    while i < |a|
      invariant 1 <= i <= |a|
      invariant idx == FirstMaxIndex(a[..i])
      invariant v == a[idx]
    {
      assert a[..i + 1][..i] == a[..i];
      if v < a[i] {
        v := a[i];
        idx := i;
      }
      i := i + 1;
    }
    assert a[..|a|] == a;
    FirstMaxIndexIsFirstMax(a);
  }

  /** A one-hot vector peaks at its hot position. */
  function OneHot(k: int): (d: Distribution)
    ensures forall j :: 0 <= j < 3 ==> d[j] == if j == k then 1.0 else 0.0
  {
    seq(3, j => if j == k then 1.0 else 0.0)
  }

  lemma OneHotArgmax(k: int)
    requires IsMove(k)
    ensures FirstMaxIndex(OneHot(k)) == k
  {
    FirstMaxIndexIsFirstMax(OneHot(k));
    FirstMaxUnique(OneHot(k), k, FirstMaxIndex(OneHot(k)));
  }

  // ---------------------------------------------------------------------------
  // predToMove, winner, move2String
  // ---------------------------------------------------------------------------

  /** The move that beats the predicted one; anything but Rock or Paper counts as
      Scissor, and so is answered with Rock. */
  function PredToMove(pred: int): (m: int)
    ensures IsMove(m)
    ensures IsMove(pred) ==> m == (pred + 1) % 3
    ensures !IsMove(pred) ==> m == Rock
  {
    if pred == Rock then Paper
    else if pred == Paper then Scissor
    else Rock
  }

  /** The payoff of a round for the first player: 0 for equal moves, -1 when the second
      move is the one after the first in the cycle Rock, Paper, Scissor (the second
      beats the first), 1 otherwise, including every pair with an unknown move. */
  function Winner(move1: int, move2: int): (r: int)
    ensures -1 <= r <= 1
    ensures r == 0 <==> move1 == move2
    ensures IsMove(move1) && IsMove(move2) ==> (r == -1 <==> (move2 - move1) % 3 == 1)
    ensures IsMove(move1) && IsMove(move2) ==> (r == 1 <==> (move1 - move2) % 3 == 1)
    ensures move1 != move2 && !(IsMove(move1) && IsMove(move2)) ==> r == 1
  {
    if move1 == move2 then 0
    else if move1 == Rock && move2 == Paper then -1
    else if move1 == Paper && move2 == Scissor then -1
    else if move1 == Scissor && move2 == Rock then -1
    else 1
  }

  /** The counter-move wins against the move it was chosen against, whatever that is. */
  lemma CounterMoveWins(pred: int)
    ensures Winner(PredToMove(pred), pred) == 1
  {
  }

  /** Between two real moves, swapping the players negates the payoff. */
  lemma WinnerAntisymmetric(a: int, b: int)
    requires IsMove(a) && IsMove(b)
    ensures Winner(a, b) == -Winner(b, a)
  {
  }

  /** Outside the three moves the payoff is not antisymmetric: both orders score 1. */
  lemma WinnerUnknownMove()
    ensures Winner(Rock, 3) == 1 && Winner(3, Rock) == 1
  {
  }

  function Move2String(move: int): (s: string)
    ensures s == "Rock" <==> move == Rock
    ensures s == "Paper" <==> move == Paper
    ensures s == "Scissor" <==> move != Rock && move != Paper
  {
    if move == Rock then "Rock"
    else if move == Paper then "Paper"
    else "Scissor"
  }

  /** The three moves have three different names. */
  lemma Move2StringInjective(a: int, b: int)
    requires IsMove(a) && IsMove(b) && Move2String(a) == Move2String(b)
    ensures a == b
  {
  }

  // ---------------------------------------------------------------------------
  // encode
  // ---------------------------------------------------------------------------

  const ENCODE_WIDTH: nat := 24

  /** Cell (row, col) of a flat row-major 3 x ENCODE_WIDTH matrix. */
  function At(m: seq<bool>, row: nat, col: nat): bool
    requires |m| == 3 * ENCODE_WIDTH && row < 3 && col < ENCODE_WIDTH
  {
    m[row * ENCODE_WIDTH + col]
  }

  /** The 3 x ENCODE_WIDTH boolean matrix whose row `i` is all true and whose other rows
      are all false, written flat. Row `i` must exist. */
  function Encode(i: int): (m: seq<bool>)
    requires IsMove(i)
    ensures |m| == 3 * ENCODE_WIDTH
    ensures forall row: nat, col: nat :: row < 3 && col < ENCODE_WIDTH ==> (At(m, row, col) <==> row == i)
  {
    seq(3 * ENCODE_WIDTH, j => j / ENCODE_WIDTH == i)
  }

  /** The rows of the encoding, in order. */
  lemma EncodeSplit(i: int)
    requires IsMove(i)
    ensures Encode(i) == Row(i == 0) + Row(i == 1) + Row(i == 2)
  {
    var rows := Row(i == 0) + Row(i == 1) + Row(i == 2);
    forall j | 0 <= j < 3 * ENCODE_WIDTH
      ensures Encode(i)[j] == rows[j]
    {
      DivBlock(j, ENCODE_WIDTH, j / ENCODE_WIDTH);
    }
  }

  function Row(b: bool): (r: seq<bool>)
    ensures |r| == ENCODE_WIDTH && forall j :: 0 <= j < ENCODE_WIDTH ==> r[j] == b
  {
    seq(ENCODE_WIDTH, _ => b)
  }

  /** Exactly ENCODE_WIDTH cells of an encoding are true. */
  lemma EncodeCount(i: int)
    requires IsMove(i)
    ensures CountTrue(Encode(i)) == ENCODE_WIDTH
  {
    EncodeSplit(i);
    CountTrueConcat(Row(i == 0) + Row(i == 1), Row(i == 2));
    CountTrueConcat(Row(i == 0), Row(i == 1));
    CountTrueConstant(Row(i == 0), i == 0);
    CountTrueConstant(Row(i == 1), i == 1);
    CountTrueConstant(Row(i == 2), i == 2);
  }

  /** The active columns of an encoding are the ENCODE_WIDTH cells of row `i`, in order. */
  lemma SparseEncode(i: int)
    requires IsMove(i)
    ensures TrueIndices(Encode(i)) == seq(ENCODE_WIDTH, j => ENCODE_WIDTH * i + j)
  {
    var v: seq<nat> := seq(ENCODE_WIDTH, j => ENCODE_WIDTH * i + j);
    forall j | 0 <= j < 3 * ENCODE_WIDTH
      ensures Densify(v, 3 * ENCODE_WIDTH)[j] == Encode(i)[j]
    {
      DivBlock(j, ENCODE_WIDTH, i);
      if j / ENCODE_WIDTH == i {
        assert v[j - ENCODE_WIDTH * i] == j;
      }
    }
    assert Densify(v, 3 * ENCODE_WIDTH) == Encode(i);
    DensifyThenSparsify(v, 3 * ENCODE_WIDTH);
  }

  /** Pooling an encoding by rows gives the one-hot vector of its move. */
  lemma EncodePools(i: int)
    requires IsMove(i)
    ensures Pooled(3, ENCODE_WIDTH, Encode(i)) == OneHot(i)
  {
    var e := Encode(i);
    EncodeSplit(i);
    forall k | 0 <= k < 3
      ensures Pooled(3, ENCODE_WIDTH, e)[k] == OneHot(i)[k]
    {
      PooledAt(3, ENCODE_WIDTH, e, k);
      var bucket := e[k * ENCODE_WIDTH .. k * ENCODE_WIDTH + ENCODE_WIDTH];
      assert bucket == Row(i == k);
      CountTrueConstant(bucket, i == k);
    }
  }
}
