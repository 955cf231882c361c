/** The two players of main.cpp. The recurrent-network player buffers (input, target)
    pairs and retrains its network; the HTM player encodes the opponent's last move,
    runs it through a temporal memory and pools the predicted columns into one score
    per move. Both learning engines are stand-ins whose answers are fixed functions of
    the calls they have received. */
module Players {
  import opened HtmHelper
  import opened Game

  // ---------------------------------------------------------------------------
  // The recurrent network (tiny_dnn)
  // ---------------------------------------------------------------------------

  /** Length of the training sequence for one pass of the recurrent network. */
  const RNN_DATA_PER_EPOCH: nat := 3

  datatype Phase = Train | Test

  /** One call made to the network, with the sequence length and phase in force. */
  datatype NetCall =
    | FitCall(inputs: seq<real>, targets: seq<real>, seqLen: nat, phase: Phase)
    | PredictCall(input: seq<real>, seqLen: nat, phase: Phase)

  /** The recurrent network: what it predicts is a fixed function of the calls so far. */
  class Network
  {
    var seqLen: nat
    var phase: Phase
    var calls: seq<NetCall>
    const respond: seq<NetCall> -> Distribution

    /** constructNet: a recurrent layer over RNN_DATA_PER_EPOCH steps. constructNet sets no
        phase; training phase is taken as tiny_dnn's default. */
    constructor (respond: seq<NetCall> -> Distribution)
      ensures this.respond == respond && calls == []
      ensures seqLen == RNN_DATA_PER_EPOCH && phase == Train
    {
      this.respond := respond;
      calls := [];
      seqLen := RNN_DATA_PER_EPOCH;
      phase := Train;
    }

    method SetSeqLen(n: nat)
      modifies this
      ensures seqLen == n && phase == old(phase) && calls == old(calls)
    {
      seqLen := n;
    }

    method SetNetPhase(p: Phase)
      modifies this
      ensures phase == p && seqLen == old(seqLen) && calls == old(calls)
    {
      phase := p;
    }

    /** One training pass (one epoch, batch size one) on a single sequence. */
    method Fit(inputs: seq<real>, targets: seq<real>)
      modifies this
      ensures calls == old(calls) + [FitCall(inputs, targets, seqLen, phase)]
      ensures seqLen == old(seqLen) && phase == old(phase)
    {
      calls := calls + [FitCall(inputs, targets, seqLen, phase)];
    }

    method Predict(input: seq<real>) returns (out: Distribution)
      modifies this
      ensures calls == old(calls) + [PredictCall(input, seqLen, phase)]
      ensures seqLen == old(seqLen) && phase == old(phase)
      ensures out == respond(calls)
    {
      calls := calls + [PredictCall(input, seqLen, phase)];
      out := respond(calls);
    }
  }

  // ---------------------------------------------------------------------------
  // RNNPlayer
  // ---------------------------------------------------------------------------

  /** The calls the player makes to its network when fed the inputs `seen`, one call of
      compute after another: every input but the first first trains the network on the
      previous input with this one as target, and every input is then predicted from. */
  function RnnCalls(seen: seq<seq<real>>): seq<NetCall>
  {
    if seen == [] then []
    else
      var prev := seen[..|seen| - 1];
      var x := seen[|seen| - 1];
      RnnCalls(prev)
      + (if prev == [] then [] else [FitCall(prev[|prev| - 1], x, RNN_DATA_PER_EPOCH, Train)])
      + [PredictCall(x, 1, Test)]
  }

  function CountFits(calls: seq<NetCall>): (n: nat)
    ensures n <= |calls|
  {
    if calls == [] then 0 else CountFits(calls[..|calls| - 1]) + (if calls[|calls| - 1].FitCall? then 1 else 0)
  }

  function CountPredicts(calls: seq<NetCall>): (n: nat)
    ensures n <= |calls|
  {
    if calls == [] then 0 else CountPredicts(calls[..|calls| - 1]) + (if calls[|calls| - 1].PredictCall? then 1 else 0)
  }

  lemma {:induction false} CountsConcat(a: seq<NetCall>, b: seq<NetCall>)
    ensures CountFits(a + b) == CountFits(a) + CountFits(b)
    ensures CountPredicts(a + b) == CountPredicts(a) + CountPredicts(b)
  {
    if b != [] {
      var b' := b[..|b| - 1];
      assert (a + b)[..|a + b| - 1] == a + b';
      CountsConcat(a, b');
    } else {
      assert a + b == a;
    }
  }

  /** After n calls of compute the network has made one prediction per call and has been
      trained once per call except the first. */
  lemma {:induction false} RnnCallCounts(seen: seq<seq<real>>)
    ensures CountPredicts(RnnCalls(seen)) == |seen|
    ensures CountFits(RnnCalls(seen)) == if seen == [] then 0 else |seen| - 1
  {
    if seen != [] {
      var prev := seen[..|seen| - 1];
      var x := seen[|seen| - 1];
      var fit := if prev == [] then [] else [FitCall(prev[|prev| - 1], x, RNN_DATA_PER_EPOCH, Train)];
      var predict := [PredictCall(x, 1, Test)];
      assert RnnCalls(seen) == RnnCalls(prev) + fit + predict;
      RnnCallCounts(prev);
      CountsConcat(RnnCalls(prev) + fit, predict);
      CountsConcat(RnnCalls(prev), fit);
      assert CountFits(predict) == 0 && CountPredicts(predict) == 1;
      assert CountFits(fit) == (if prev == [] then 0 else 1) && CountPredicts(fit) == 0;
    }
  }

  /** C++'s `m % 3`, which truncates towards zero: the remainder takes the sign of `m`. */
  function CRem3(m: int): (r: int)
    ensures (m - r) % 3 == 0
    ensures m >= 0 ==> 0 <= r < 3
    ensures m < 0 ==> -3 < r <= 0
  {
    if m >= 0 then m % 3 else -((-m) % 3)
  }

  /** The network input for the opponent's last move: one-hot at the move modulo 3. */
  function MoveInput(m: int): (v: Distribution)
    requires CRem3(m) >= 0
    ensures forall j :: 0 <= j < 3 ==> v[j] == if j == CRem3(m) then 1.0 else 0.0
    ensures IsMove(m) ==> v == OneHot(m)
  {
    OneHot(CRem3(m))
  }

  class RNNPlayer
  {
    var inputBuffer: seq<real>
    var outputBuffer: seq<real>
    var lastInput: seq<real>
    const nn: Network
    /** Every input given to compute so far. */
    ghost var seen: seq<seq<real>>

    /** Between calls both buffers are empty, the last input is remembered, the network
        predicts one step at a time in test phase, and it has received exactly the calls
        RnnCalls prescribes for the inputs seen. */
    ghost predicate Valid()
      reads this, nn
    {
      inputBuffer == [] && outputBuffer == []
      && lastInput == (if seen == [] then [] else seen[|seen| - 1])
      && (forall k :: 0 <= k < |seen| ==> |seen[k]| == 3)
      && nn.seqLen == 1 && nn.phase == Test
      && nn.calls == RnnCalls(seen)
    }

    constructor (respond: seq<NetCall> -> Distribution)
      ensures Valid() && seen == []
      ensures fresh(nn) && nn.respond == respond
    {
      inputBuffer := [];
      outputBuffer := [];
      lastInput := [];
      seen := [];
      nn := new Network(respond);
      new;
      nn.SetNetPhase(Test);
      nn.SetSeqLen(1);
    }

    /** compute(int): feed the one-hot vector of the opponent's last move. A negative
        move whose remainder is negative would index outside the vector. */
    method ComputeMove(lastOppoMove: int) returns (r: Distribution)
      requires Valid() && CRem3(lastOppoMove) >= 0
      modifies this, nn
      ensures Valid() && seen == old(seen) + [MoveInput(lastOppoMove)]
      ensures lastInput == MoveInput(lastOppoMove)
      ensures r == nn.respond(nn.calls)
    {
      r := ComputeVector(MoveInput(lastOppoMove));
    }

    /** compute(vector): from the second call on, buffer the previous input with this one
        as its target; when the buffer holds RNN_DATA_PER_EPOCH values, train once on it
        and clear it; then predict from this input. */
    method ComputeVector(input: seq<real>) returns (r: Distribution)
      requires Valid() && |input| == 3
      modifies this, nn
      ensures Valid() && seen == old(seen) + [input]
      ensures inputBuffer == [] && outputBuffer == [] && lastInput == input
      ensures nn.calls == old(nn.calls)
        + (if old(lastInput) == [] then [] else [FitCall(old(lastInput), input, RNN_DATA_PER_EPOCH, Train)])
        + [PredictCall(input, 1, Test)]
      ensures r == nn.respond(nn.calls)
    {
      SaveTrainingData(input);
      TrainWhenFull();
      r := nn.Predict(input);
      RnnCallsStep(old(seen), input);
      seen := seen + [input];
    }

    /** The bookkeeping half of compute: when there is a previous input, append it to the
        input buffer and the current input to the target buffer; then remember the current
        input. */
    method SaveTrainingData(input: seq<real>)
      requires inputBuffer == [] && outputBuffer == []
      modifies this
      ensures lastInput == input && seen == old(seen)
      ensures old(lastInput) != [] ==> inputBuffer == old(lastInput) && outputBuffer == input
      ensures old(lastInput) == [] ==> inputBuffer == [] && outputBuffer == []
    {
      if |lastInput| != 0 {
        var i := 0;
        while i < |lastInput|
          modifies this
          invariant 0 <= i <= |lastInput|
          invariant inputBuffer == lastInput[..i]
          invariant outputBuffer == [] && lastInput == old(lastInput) && seen == old(seen)
        {
          inputBuffer := inputBuffer + [lastInput[i]];
          i := i + 1;
        }
        var j := 0;
        while j < |input|
          modifies this
          invariant 0 <= j <= |input|
          invariant outputBuffer == input[..j]
          invariant inputBuffer == lastInput && lastInput == old(lastInput) && seen == old(seen)
        {
          outputBuffer := outputBuffer + [input[j]];
          j := j + 1;
        }
      }
      lastInput := input;
    }

    /** The training half of compute: once the input buffer holds RNN_DATA_PER_EPOCH
        values, train on the buffers with that sequence length in training phase, go back
        to single-step test phase, and empty both buffers. */
    method TrainWhenFull()
      requires nn.seqLen == 1 && nn.phase == Test
      modifies this, nn
      ensures lastInput == old(lastInput) && seen == old(seen)
      ensures nn.seqLen == 1 && nn.phase == Test
      ensures |old(inputBuffer)| == RNN_DATA_PER_EPOCH ==>
        nn.calls == old(nn.calls) + [FitCall(old(inputBuffer), old(outputBuffer), RNN_DATA_PER_EPOCH, Train)]
        && inputBuffer == [] && outputBuffer == []
      ensures |old(inputBuffer)| != RNN_DATA_PER_EPOCH ==>
        nn.calls == old(nn.calls) && inputBuffer == old(inputBuffer) && outputBuffer == old(outputBuffer)
    {
      if |inputBuffer| == RNN_DATA_PER_EPOCH {
        nn.SetSeqLen(RNN_DATA_PER_EPOCH);
        nn.SetNetPhase(Train);
        nn.Fit(inputBuffer, outputBuffer);
        nn.SetNetPhase(Test);
        nn.SetSeqLen(1);
        inputBuffer := [];
        outputBuffer := [];
      }
    }
  }

  /** One more input adds, to the calls RnnCalls prescribes, a training call on the
      previous input (when there is one) and a prediction from the new input. */
  lemma RnnCallsStep(seen: seq<seq<real>>, x: seq<real>)
    ensures RnnCalls(seen + [x]) == RnnCalls(seen)
      + (if seen == [] then [] else [FitCall(seen[|seen| - 1], x, RNN_DATA_PER_EPOCH, Train)])
      + [PredictCall(x, 1, Test)]
  {
    assert (seen + [x])[..|seen|] == seen;
  }

  // ---------------------------------------------------------------------------
  // HTMPlayer
  // ---------------------------------------------------------------------------

  /** Cells per column of the player's temporal memory. */
  const TP_DEPTH: nat := 32

  /** The score of each move from the temporal memory's predicted columns: the fraction
      of the move's row of the encoding that is predicted. */
  function Scores(predicted: seq<bool>): (d: Distribution)
    requires |predicted| == 3 * ENCODE_WIDTH
    ensures d == Pooled(3, ENCODE_WIDTH, predicted)
    ensures forall k :: 0 <= k < 3 ==> 0.0 <= d[k] <= 1.0
  {
    PooledBounds(3, ENCODE_WIDTH, predicted);
    Pooled(3, ENCODE_WIDTH, predicted)
  }

  /** The player's 3 x ENCODE_WIDTH input layer has 3 * ENCODE_WIDTH cells. */
  lemma InputCells()
    ensures Product([3, ENCODE_WIDTH]) == 3 * ENCODE_WIDTH
  {
    assert [3, ENCODE_WIDTH][..1] == [3];
    assert [3][..0] == [];
  }

  class HTMPlayer
  {
    const tm: TM

    ghost predicate Valid()
    {
      tm.Valid() && tm.layer.inputDimensions == [3, ENCODE_WIDTH] && tm.colInTP == TP_DEPTH
    }

    /** A temporal memory over a 3 x ENCODE_WIDTH input with TP_DEPTH cells per column. */
    constructor (respond: seq<EngineCall<seq<nat>>> -> seq<nat>)
      requires forall h, k :: 0 <= k < |respond(h)| ==> respond(h)[k] < 3 * ENCODE_WIDTH * TP_DEPTH
      ensures Valid()
      ensures fresh(tm) && fresh(tm.tm) && tm.tm.calls == [] && tm.tm.respond == respond
    {
      InputCells();
      tm := new TM([3, ENCODE_WIDTH], TP_DEPTH, respond);
    }

    /** compute(int, learn): encode the move, run the temporal memory with learning on
        regardless of `learn`, and score each move by its pooled predicted columns. */
    method ComputeMove(lastOppoMove: int, learn: bool) returns (d: Distribution)
      requires Valid() && IsMove(lastOppoMove)
      modifies tm.tm
      ensures tm.tm.calls == old(tm.tm.calls) + [ComputeCall(TrueIndices(Encode(lastOppoMove)), true)]
      ensures d == Scores(PredictedColumns(tm.tm.Output(), TP_DEPTH, 3 * ENCODE_WIDTH))
    {
      var out := ComputeEncoded(Encode(lastOppoMove), true);
      var pooled := Categorize(3, ENCODE_WIDTH, out);
      d := pooled;
    }

    method Train(x: seq<bool>) returns (out: seq<bool>)
      requires Valid() && |x| == 3 * ENCODE_WIDTH
      modifies tm.tm
      ensures tm.tm.calls == old(tm.tm.calls) + [ComputeCall(TrueIndices(x), true)]
      ensures out == PredictedColumns(tm.tm.Output(), TP_DEPTH, |x|)
    {
      out := ComputeEncoded(x, true);
    }

    method Predict(x: seq<bool>) returns (out: seq<bool>)
      requires Valid() && |x| == 3 * ENCODE_WIDTH
      modifies tm.tm
      ensures tm.tm.calls == old(tm.tm.calls) + [ComputeCall(TrueIndices(x), false)]
      ensures out == PredictedColumns(tm.tm.Output(), TP_DEPTH, |x|)
    {
      out := ComputeEncoded(x, false);
    }

    method ComputeEncoded(x: seq<bool>, learn: bool) returns (out: seq<bool>)
      requires Valid() && |x| == 3 * ENCODE_WIDTH
      modifies tm.tm
      ensures tm.tm.calls == old(tm.tm.calls) + [ComputeCall(TrueIndices(x), learn)]
      ensures out == PredictedColumns(tm.tm.Output(), TP_DEPTH, |x|)
    {
      InputCells();
      out := tm.Compute(x, learn);
    }

    method Reset()
      modifies tm.tm
      ensures tm.tm.calls == old(tm.tm.calls) + [ResetCall]
    {
      tm.Reset();
    }
  }

  /** If the temporal memory predicts the home cell of every active column of the
      encoded move, the HTM player scores that move 1 and the others 0, and argmax picks
      it. */
  lemma PerfectRecall(m: int)
    requires IsMove(m)
    ensures forall k :: 0 <= k < |TrueIndices(Encode(m))| ==>
      HomeCells(TrueIndices(Encode(m)), TP_DEPTH)[k] < 3 * ENCODE_WIDTH * TP_DEPTH
    ensures Scores(PredictedColumns(HomeCells(TrueIndices(Encode(m)), TP_DEPTH), TP_DEPTH, 3 * ENCODE_WIDTH)) == OneHot(m)
    ensures FirstMaxIndex(Scores(PredictedColumns(HomeCells(TrueIndices(Encode(m)), TP_DEPTH), TP_DEPTH, 3 * ENCODE_WIDTH))) == m
  {
    HomeCellsDecode(Encode(m), TP_DEPTH);
    SparseEncode(m);
    EncodePools(m);
    OneHotArgmax(m);
  }
}
