# rps-htm-vs-nn in Dafny

A model of the self-play harness of rps-htm-vs-nn: a recurrent-network player (tiny_dnn)
and an HTM player (a nupic temporal memory) play rock-paper-scissors against each other.
Each round, each player is fed the other's last move, predicts the other's next move as a
length-3 vector, and plays the counter to the first largest entry of that vector.

The project has four modules:

- `HtmHelper` (`htmhelper.dfy`) models htmhelper.hpp:
  - `sparsify`, proved against the ascending list of true positions, with both
    round trips to the dense form;
  - `categroize`, as the in-place accumulate-then-divide over an `array`, proved
    equal to the bucket means, which are shown to conserve activity and to lie in [0, 1];
  - `inputSize`/`outputSize`, as a size_t product that wraps modulo 2^64;
  - the decoding loops of `TM::compute` and `TP::compute`;
  - the `TM` and `TP` wrappers, as classes over an engine stand-in.
- `Game` (`game.dfy`) models the pure rules of main.cpp: `argmax` (a loop proved
  to return the first maximum), `predToMove`, `winner`, `move2String` and `encode`.
- `Players` (`players.dfy`) models `RNNPlayer` and `HTMPlayer` as classes.
- `SelfPlay` (`selfplay.dfy`) models the round loop of `main`. It is proved equal to a
  functional definition of the match, `Rounds`, built from the two players viewed as
  predictors.

The learning engines are not part of this model. Each is a class that records every call
it receives. What it answers is a fixed function (`respond`) of the calls received so far:
- `Network` stands for the tiny_dnn network.
- `Engine` stands for nupic's `TemporalMemory` and `Cells4`.

So the model says exactly which compute, fit, predict and reset calls each player makes
to its engine, in which order and with which arguments. It does not say what the engines
learn. The network's sequence length and phase are modelled as state that fit and predict
record, not as logged calls. The optimizer, batch size and epoch count passed to fit are
not recorded. HTMPlayer's hyperparameter setters are not modelled. Floats are modelled as `real`.

The recurrent player's training cadence follows the code:

- The constant's name `RNN_DATA_PER_EPOCH` and the recurrent layer's sequence length
  (main.cpp:13, 23) suggest a window of three (input, target) pairs.
- But the code compares the length of the flat float buffer `input_` with
  `RNN_DATA_PER_EPOCH` (3), and one pair of one-hot vectors already puts three floats
  there.
- So the network is trained on every call except the first, and the buffers are empty
  after every call.

`RnnCalls` and `RnnCallCounts` state this cadence.

## Model

| member | source | states |
|---|---|---|
| HtmHelper.Sparsify | htmhelper.hpp:14-24 | the result is the list of true positions of `t`: strictly increasing, each below \|t\|, containing position i exactly when t[i] holds, and as long as the number of true entries |
| HtmHelper.TrueIndicesCorrect | htmhelper.hpp:14-24 | the sparse form is ascending, lies inside the vector, holds exactly the true positions and has one entry per true entry |
| HtmHelper.SparsifyThenDensify | htmhelper.hpp:14-24 | densifying the sparse form of a vector to its length gives the vector back |
| HtmHelper.DensifyThenSparsify | htmhelper.hpp:14-24 | an ascending list of positions below n, made dense and sparsified again, comes back unchanged |
| HtmHelper.AscendingUnique | htmhelper.hpp:14-24 | two strictly ascending index lists with the same members are equal, so the sparse form is determined by the set of true positions |
| HtmHelper.CountTrueConcat | htmhelper.hpp:30-31 | the number of true entries of a concatenation is the sum of the two counts |
| HtmHelper.Categorize | htmhelper.hpp:26-34 | given num_category * len_per_category == \|in\|, the result is the vector of bucket means: entry k is the share of true entries among in[k*len .. k*len+len) |
| HtmHelper.Accumulate | htmhelper.hpp:28-31 | after the accumulation loop, accumulator k holds the number of true entries of bucket k, starting from zeros |
| HtmHelper.DivideAll | htmhelper.hpp:32 | every entry of the array is divided in place by the bucket length and nothing else changes |
| HtmHelper.AccumulatedStep | htmhelper.hpp:30-31 | reading entry i adds its value to accumulator i/len and to no other |
| HtmHelper.PooledAt | htmhelper.hpp:26-34 | entry k of the pooled vector is the mean of the k-th contiguous bucket, which lies inside the input |
| HtmHelper.PooledConserves | htmhelper.hpp:30-33 | the bucket means add up to the number of true entries of the input divided by the bucket length |
| HtmHelper.PooledBounds | htmhelper.hpp:30-33 | every bucket mean lies between 0 and 1 |
| HtmHelper.DimensionProduct | htmhelper.hpp:52-66 | the accumulating loop returns the product of the dimensions modulo 2^64, and 1 for no dimensions |
| HtmHelper.HTMLayerBase.InputSize | htmhelper.hpp:52-58 | the input size is the product of the input dimensions modulo 2^64 |
| HtmHelper.HTMLayerBase.OutputSize | htmhelper.hpp:60-66 | the output size is the product of the output dimensions modulo 2^64 |
| HtmHelper.DecodePredictiveCells | htmhelper.hpp:161-166 | column c of the output is true exactly when some predictive cell lies in c*colInTP .. c*colInTP+colInTP-1, i.e. has idx / colInTP == c |
| HtmHelper.HomeCellsDecode | htmhelper.hpp:158-167 | an engine that predicts the first cell of exactly the active columns reports existing cells only, and decoding gives the input back |
| HtmHelper.TM.constructor | htmhelper.hpp:151-156 | the wrapper has equal input and output dimensions, numCol cells per column and an engine that has received no call |
| HtmHelper.TM.Compute | htmhelper.hpp:158-167 | the engine receives the sparse form of t with the learn flag, and the output has one entry per input column, true exactly for columns holding a predictive cell |
| HtmHelper.TM.Reset | htmhelper.hpp:179-182 | the engine receives a reset and nothing else |
| HtmHelper.AsReals | htmhelper.hpp:120 | the float input has one entry per cell, non-zero exactly where the boolean input is true |
| HtmHelper.DecodeFirstCells | htmhelper.hpp:121-126 | entry i of the result is whether the engine output at i*colInTP, the first cell of column i, is non-zero |
| HtmHelper.SpreadFirstCells | htmhelper.hpp:118-127 | reading the first cell of each column of an output that repeats every column's state over its cells gives the columns back |
| HtmHelper.TP.constructor | htmhelper.hpp:111-116 | the wrapper has equal input and output dimensions, numCol cells per column and an engine that has received no call |
| HtmHelper.TP.Compute | htmhelper.hpp:118-127 | the engine receives t as floats with the learn flag, and entry i of the result is true exactly when the engine's output for the first cell of column i is non-zero |
| HtmHelper.TP.Reset | htmhelper.hpp:139-142 | the engine receives a reset and nothing else |
| Game.Argmax | main.cpp:37-48 | on a non-empty vector, the result holds a largest entry and every earlier entry is strictly smaller, so ties go to the earliest index |
| Game.FirstMaxIndexIsFirstMax | main.cpp:37-48 | the reference definition of argmax returns a first maximum |
| Game.FirstMaxUnique | main.cpp:37-48 | at most one index is a first maximum, so argmax's answer is determined |
| Game.OneHotArgmax | main.cpp:37-48 | argmax of the one-hot vector of a move is that move |
| Game.PredToMove | main.cpp:157-165 | Rock maps to Paper, Paper to Scissor, and every other value, Scissor included, to Rock; for a move m the answer is (m+1) mod 3 |
| Game.Winner | main.cpp:167-181 | the payoff is -1, 0 or 1; it is 0 exactly for equal moves; between two moves it is -1 exactly when the second is the next in the cycle and 1 exactly when the first is; any unequal pair with an unknown value scores 1 |
| Game.CounterMoveWins | main.cpp:157-181 | the counter-move beats the predicted value, for every integer prediction |
| Game.WinnerAntisymmetric | main.cpp:167-181 | between two moves, swapping the players negates the payoff |
| Game.WinnerUnknownMove | main.cpp:167-181 | with an unknown value both orders score 1, so antisymmetry needs both arguments to be moves |
| Game.Move2String | main.cpp:183-190 | "Rock" exactly for Rock, "Paper" exactly for Paper, and "Scissor" for everything else |
| Game.Move2StringInjective | main.cpp:183-190 | the three moves have three different names |
| Game.Encode | main.cpp:114-119 | for a move i, a 3 x 24 matrix (72 cells, row-major) whose cell (row, col) is true exactly when row == i: row i all true, the other rows all false |
| Game.EncodeCount | main.cpp:114-119 | exactly ENCODE_WIDTH (24) entries of an encoding are true |
| Game.SparseEncode | main.cpp:114-119 | the active columns of the encoding of i are 24*i .. 24*i+23, in order |
| Game.EncodePools | main.cpp:134-139 | pooling the encoding of a move by rows of 24 gives the one-hot vector of that move |
| Players.Network.constructor | main.cpp:19-35 | a new network trains on sequences of RNN_DATA_PER_EPOCH steps and has received no call; its training phase is tiny_dnn's default, which constructNet does not set and RNNPlayer's constructor overwrites at once |
| Players.CRem3 | main.cpp:63 | C++'s truncating `m % 3`: it differs from m by a multiple of 3, lies in 0..2 for m >= 0 and in -2..0 for m < 0 |
| Players.MoveInput | main.cpp:60-65 | the input vector is 1 at m % 3 and 0 elsewhere; for a move it is that move's one-hot vector |
| Players.RnnCallCounts | main.cpp:67-101 | after n calls of compute the network has made n predictions and n-1 training passes (none after no call) |
| Players.RnnCallsStep | main.cpp:67-101 | each call adds one training pass on (previous input, this input) unless it is the first, then one single-step prediction from this input |
| Players.RNNPlayer.constructor | main.cpp:53-58 | a new player has empty buffers and no last input, and its network is in test phase with sequence length 1 and has received no call |
| Players.RNNPlayer.ComputeMove | main.cpp:60-65 | feeds the one-hot vector at the move modulo 3 to compute(vector), with that method's guarantees |
| Players.RNNPlayer.ComputeVector | main.cpp:67-101 | the first call does not train; every later call trains exactly once on the previous input with this input as target at sequence length 3 in training phase; then it predicts from this input at sequence length 1 in test phase; afterwards both buffers are empty and the last input is this input |
| Players.RNNPlayer.SaveTrainingData | main.cpp:71-77 | when there is a last input, the input buffer gets it and the target buffer gets the current input; otherwise both stay empty; then the current input is remembered |
| Players.RNNPlayer.TrainWhenFull | main.cpp:79-89 | a buffer of exactly RNN_DATA_PER_EPOCH values triggers one training pass on the buffers and clears them, leaving sequence length 1 and test phase; any other buffer length changes nothing |
| Players.Scores | main.cpp:138 | the score of each move is the pooled mean of its row of predicted columns, between 0 and 1 |
| Players.HTMPlayer.constructor | main.cpp:124-132 | a new player has a temporal memory over a 3 x 24 input with 32 cells per column that has received no call |
| Players.HTMPlayer.ComputeMove | main.cpp:134-139 | the memory receives the active columns of the move's encoding with learning on, regardless of `learn`, and the result is the pooled score of the columns it then predicts |
| Players.HTMPlayer.Train | main.cpp:141 | the memory receives the input's active columns with learning on, and the result is its predicted columns |
| Players.HTMPlayer.Predict | main.cpp:142 | the memory receives the input's active columns with learning off, and the result is its predicted columns |
| Players.HTMPlayer.ComputeEncoded | main.cpp:143 | the memory receives the input's active columns with the given flag, and the result is its predicted columns |
| Players.HTMPlayer.Reset | main.cpp:144 | the memory receives a reset and nothing else |
| Players.PerfectRecall | main.cpp:134-139 | a memory predicting the first cell of every active column of a move's encoding makes the player score that move 1 and the others 0, and argmax picks it |
| SelfPlay.Score | main.cpp:235-240 | scoring a round raises exactly one counter by one: the recurrent player's on payoff 1, draws on 0, the HTM player's otherwise |
| SelfPlay.TallyTotal | main.cpp:207-241 | the three counters add up to the number of rounds played |
| SelfPlay.TallyOfSnoc | main.cpp:224-240 | one more round is scored on top of the earlier rounds |
| SelfPlay.NextRound | main.cpp:213-222 | the moves of a round are moves, the counters to the first maximum of each player's output |
| SelfPlay.Rounds | main.cpp:212-233 | a match of k rounds has k rounds and every move played is Rock, Paper or Scissor |
| SelfPlay.RoundsPrefix | main.cpp:212-233 | a longer match starts with the rounds of a shorter one |
| SelfPlay.RoundStep | main.cpp:212-241 | one loop iteration extends the match by its next round, extends what each player has been fed by the other's move, and scores that round |
| SelfPlay.PlayRound | main.cpp:213-222 | each player is fed exactly the other's last move, and each plays the counter to the first maximum of its output |
| SelfPlay.PlayGames | main.cpp:204-241 | after numGames rounds the counters are the tally of the match Rounds between the two players' predictors and add up to numGames, the last-move variables are the moves of the last round (0 for none), and each player has been fed exactly the other's last moves of every round, in order |
| SelfPlay.Match | main.cpp:198-241 | two fresh players play NUM_GAMES rounds, with counters equal to the tally of their match, adding up to NUM_GAMES |
| SelfPlay.FixedPredictions | main.cpp:212-241 | players whose outputs never change play the same round every time, and one counter, chosen by that round's payoff, takes all k rounds |
| SelfPlay.SilentScores | main.cpp:134-139 | a memory that predicts no cell makes the HTM player score every move 0 |
| SelfPlay.QuietEnginesDraw | main.cpp:204-241 | a network always predicting Rock against a memory predicting nothing: both play Paper in every round, and all k rounds are drawn |

## Left out

- The internals of tiny_dnn (`constructNet`'s layers, `fit` and `predict`, the optimizer state) are not modelled, because they are a foreign library. `Network` records each call with the sequence length and phase in force, and answers with a fixed function of those calls.
- The nupic `TemporalMemory`, `Cells4` and `SpatialPooler` internals are not modelled, nor the hyperparameters passed to their constructors and setters (htmhelper.hpp:113-114 and 155, main.cpp:127-131), because they are engine state. `Engine` records each call and answers with a fixed function of those calls.
- The `SP` and `Anom` wrappers (htmhelper.hpp:69-106 and 188-195) are not part of this model, because the match does not use them.
- The `as<>` conversion (htmhelper.hpp:36-41) is not modelled. Its only use in the match is at htmhelper.hpp:154, where it converts the dimensions for the engine's constructor, and that constructor is left out.
- `softmax` (main.cpp:192-196) is not modelled, because it is floating-point `exp` and never called.
- The `std::cout` reporting and the final win fractions (main.cpp:225-229, 243-246) are not modelled, because they are I/O and float division.
- Floats are `real`, so rounding, NaN and infinities are not modelled.
- HtmHelper.Sparsify: the 32-bit `UInt` truncation of indices of 2^32 and above is not modelled, because the vectors here have 72 entries.
- HtmHelper.Categorize: requires len_per_category > 0, because a zero length divides by zero (float NaN); the `assert` at htmhelper.hpp:29 is the other requirement.
- HtmHelper.DecodePredictiveCells: requires every predictive cell to be below size * colInTP, because the code's write out of that range is undefined behaviour. `TM.Valid` states this as the engine's promise.
- HtmHelper.TP.Compute: `TP.Valid` assumes the engine fills exactly one output value per cell. The `doInference` argument, always true, is not recorded in the call.
- HtmHelper.TM.Compute: an empty column list is passed as an empty sequence; the code's `&cols[0]` on an empty vector is not modelled.
- Game.Encode: requires a move (0, 1 or 2), because selecting any other row of the 3 x 24 matrix is undefined behaviour. In the match only moves are ever encoded.
- Players.RNNPlayer.ComputeMove: requires m % 3 >= 0, because a negative remainder indexes outside the vector.
- Players.HTMPlayer.ComputeMove: requires a move, as Game.Encode does. As in the code, it ignores `learn` and always trains.
- The loop in compute(vector) that copies the network's output into `r` (main.cpp:95-97) is modelled as passing on the `Distribution` the network returns.
- SelfPlay.PlayGames: the counters are unbounded naturals, and the round count is a natural rather than an `int`, so size_t and int overflow are not modelled. A match has 100000 rounds, far below both bounds.
- SelfPlay.HtmCalls records a reset for a fed value that is not a move. This case is unreachable, because every fed move comes from `predToMove`.
