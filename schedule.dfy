/** The per-epoch bookkeeping of `train_nn` in src/main.rs: which tenth of the
    training data an epoch trains on, which learning rate is in effect, and the
    file the epoch's weights are saved to. The forward and backward passes, the
    loss and the save itself are foreign and are not modelled. */
module Schedule {
  import opened Dataset
  import opened Wrappers

  const EPOCHS := 100
  const LEARNING_RATE_1: real := 0.000005
  const LEARNING_RATE_2: real := 0.000001

  /** `len`: the size of one of the ten shards. */
  function ShardLength(n: nat): (len: nat)
    ensures 10 * len <= n < 10 * len + 10
  {
    n / 10
  }

  /** `starting_point`: where the shard of `epoch` starts. */
  function ShardStart(epoch: nat, n: nat): (start: nat)
    ensures ShardLength(n) > 0 ==>
      start % ShardLength(n) == 0 && start / ShardLength(n) == epoch % 10
  {
    StartOfShard(epoch % 10, ShardLength(n));
    (epoch % 10) * ShardLength(n)
  }

  /** The slice `training_data[starting_point .. starting_point + len]` is always
      in bounds. */
  lemma ShardInBounds(epoch: nat, n: nat)
    ensures ShardStart(epoch, n) + ShardLength(n) <= n
  {
    var r, len := epoch % 10, n / 10;
    assert r * len <= 9 * len by {
      MulLeft(r, 9, len);
    }
  }

  lemma StartOfShard(r: nat, len: nat)
    ensures len > 0 ==> (r * len) % len == 0 && (r * len) / len == r
  {
    if len > 0 {
      var q, m := (r * len) / len, (r * len) % len;
      assert r * len == q * len + m && 0 <= m < len;
      if q < r {
        MulLeft(q + 1, r, len);
      } else if q > r {
        MulLeft(r + 1, q, len);
      }
    }
  }

  lemma MulLeft(a: nat, b: nat, c: nat)
    requires a <= b
    ensures a * c <= b * c
  {
  }

  /** Epochs with the same residue mod 10 train on the same shard. */
  lemma SameResidueSameShard(e1: nat, e2: nat, n: nat)
    requires e1 % 10 == e2 % 10
    ensures ShardStart(e1, n) == ShardStart(e2, n)
  {
  }

  /** Epochs with different residues train on disjoint shards. */
  lemma DifferentResiduesDisjoint(e1: nat, e2: nat, n: nat)
    requires e1 % 10 < e2 % 10
    ensures ShardStart(e1, n) + ShardLength(n) <= ShardStart(e2, n)
  {
    MulLeft(e1 % 10 + 1, e2 % 10, ShardLength(n));
  }

  /** Every position below `10 * len` lies in the shard of one of the epochs
      `0..9`, and the last `n % 10` examples lie in no shard at all. */
  lemma ShardCoverage(n: nat, k: nat)
    requires k < n
    ensures k < 10 * ShardLength(n) ==>
      var e := k / ShardLength(n); e < 10 && ShardStart(e, n) <= k < ShardStart(e, n) + ShardLength(n)
    ensures k >= 10 * ShardLength(n) ==>
      forall e: nat :: !(ShardStart(e, n) <= k < ShardStart(e, n) + ShardLength(n))
  {
    var len := ShardLength(n);
    if k < 10 * len {
      var e := k / len;
      assert e * len <= k < e * len + len;
      assert e < 10 by {
        if e >= 10 { MulLeft(10, e, len); }
      }
      assert e % 10 == e;
    } else {
      forall e: nat
        ensures !(ShardStart(e, n) <= k < ShardStart(e, n) + ShardLength(n))
      {
        ShardInBounds(e, n);
        MulLeft(e % 10 + 1, 10, len);
      }
    }
  }

  /** The examples trained in `epoch`. */
  function Shard(trainingData: seq<Sample>, epoch: nat): (shard: seq<Sample>)
    ensures |shard| == |trainingData| / 10
    ensures forall i :: 0 <= i < |shard| ==>
      ShardStart(epoch, |trainingData|) + i < |trainingData| &&
      shard[i] == trainingData[ShardStart(epoch, |trainingData|) + i]
  {
    ShardInBounds(epoch, |trainingData|);
    Slice(trainingData, ShardStart(epoch, |trainingData|), ShardLength(|trainingData|))
  }

  function Slice<T>(s: seq<T>, start: nat, len: nat): (r: seq<T>)
    requires start + len <= |s|
    ensures |r| == len && forall i :: 0 <= i < len ==> r[i] == s[start + i]
  {
    s[start..start + len]
  }

  /** The learning rate in effect during `epoch`: the first rate until the
      halfway epoch, where it is switched to the second for good. */
  function LearningRateAt(epoch: nat): (lr: real)
    ensures lr == LEARNING_RATE_1 || lr == LEARNING_RATE_2
    ensures 0.0 < lr <= LEARNING_RATE_1
  {
    if epoch < EPOCHS / 2 then LEARNING_RATE_1 else LEARNING_RATE_2
  }

  /** The decimal digit for `d`. */
  function Digit(d: nat): char
    requires d < 10
  {
    ('0' as int + d) as char
  }

  /** `n` written in decimal, as `{}` formats an integer: no leading zeros. */
  function Decimal(n: nat): (s: string)
    ensures |s| >= 1
    ensures forall i :: 0 <= i < |s| ==> '0' <= s[i] <= '9'
    ensures |s| > 1 ==> s[0] != '0'
  {
    if n < 10 then [Digit(n)] else Decimal(n / 10) + [Digit(n % 10)]
  }

  /** The number a string of decimal digits denotes. */
  function DecimalValue(s: string): nat
    requires forall i :: 0 <= i < |s| ==> '0' <= s[i] <= '9'
  {
    if s == [] then 0 else DecimalValue(s[..|s| - 1]) * 10 + (s[|s| - 1] as int - '0' as int)
  }

  /** Reading the decimal form back gives the number. */
  lemma {:induction false} DecimalRoundTrip(n: nat)
    ensures DecimalValue(Decimal(n)) == n
  {
    if n >= 10 {
      var s := Decimal(n);
      assert s[..|s| - 1] == Decimal(n / 10);
      DecimalRoundTrip(n / 10);
    }
  }

  /** The prefix argument: empty when `train` is given without one. */
  function PrefixArgument(arg: Option<string>): string {
    match arg
    case Some(p) => p
    case None => ""
  }

  /** `format!("./{prefix}epoch_{epoch}.nn")`. */
  function CheckpointName(prefix: string, epoch: nat): string {
    "./" + prefix + "epoch_" + Decimal(epoch) + ".nn"
  }

  /** A checkpoint is written in the current directory, under a name that
      starts with the prefix and ends in `.nn`. */
  lemma CheckpointNameShape(prefix: string, epoch: nat)
    ensures var name := CheckpointName(prefix, epoch);
      |name| >= |prefix| + 10 &&
      name[..2] == "./" && name[2..2 + |prefix|] == prefix && name[|name| - 3..] == ".nn"
  {
  }

  /** All characters of `s` are decimal digits. */
  predicate AllDigits(s: string) {
    forall i :: 0 <= i < |s| ==> '0' <= s[i] <= '9'
  }

  /** The epoch a checkpoint file of `prefix` was written in, read back from its
      name; `None` for a name that is not of that form. */
  function EpochOf(prefix: string, name: string): Option<nat> {
    var head := "./" + prefix + "epoch_";
    if |name| >= |head| + 4 && name[..|head|] == head && name[|name| - 3..] == ".nn"
       && AllDigits(name[|head|..|name| - 3])
    then Some(DecimalValue(name[|head|..|name| - 3]))
    else None
  }

  /** The checkpoint name records its epoch: reading it back gives the epoch. */
  lemma EpochOfCheckpointName(prefix: string, epoch: nat)
    ensures EpochOf(prefix, CheckpointName(prefix, epoch)) == Some(epoch)
  {
    var head := "./" + prefix + "epoch_";
    var name := CheckpointName(prefix, epoch);
    assert name == head + Decimal(epoch) + ".nn";
    assert name[..|head|] == head;
    assert name[|head|..|name| - 3] == Decimal(epoch);
    DecimalRoundTrip(epoch);
  }

  /** Without a prefix argument the checkpoints go to `./epoch_N.nn`. */
  lemma DefaultCheckpointName(epoch: nat)
    ensures CheckpointName(PrefixArgument(None), epoch) == "./epoch_" + Decimal(epoch) + ".nn"
  {
  }

  /** With the same prefix, distinct epochs write distinct files. */
  lemma CheckpointNamesDistinct(prefix: string, e1: nat, e2: nat)
    requires e1 != e2
    ensures CheckpointName(prefix, e1) != CheckpointName(prefix, e2)
  {
    EpochOfCheckpointName(prefix, e1);
    EpochOfCheckpointName(prefix, e2);
  }

  /** What one epoch of `train_nn` does apart from the foreign work: the learning
      rate of the optimiser, the shard it trains on, and the file it saves to. */
  datatype Epoch = Epoch(learningRate: real, shard: seq<Sample>, checkpoint: string)

  /** The record of epoch `e`. */
  function EpochAt(trainingData: seq<Sample>, prefix: string, e: nat): Epoch {
    Epoch(LearningRateAt(e), Shard(trainingData, e), CheckpointName(prefix, e))
  }

  /** The checkpoints of the epochs before `n` were all saved. */
  predicate SavedBefore(saved: string -> bool, prefix: string, n: nat) {
    forall e :: 0 <= e < n ==> saved(CheckpointName(prefix, e))
  }

  /** The epoch loop of `train_nn`, with the optimiser's learning rate as the
      state that `set_lr` changes. `saved` tells whether `vs.save` succeeds for
      a file name; the `?` after it ends training at the first failed save,
      after that epoch has trained. `ok` is false exactly then. */
  method TrainEpochs(trainingData: seq<Sample>, prefix: string, saved: string -> bool)
    returns (epochs: seq<Epoch>, ok: bool)
    ensures 0 < |epochs| <= EPOCHS
    ensures forall e :: 0 <= e < |epochs| ==> epochs[e] == EpochAt(trainingData, prefix, e)
    ensures SavedBefore(saved, prefix, |epochs| - 1)
    ensures ok <==> saved(CheckpointName(prefix, |epochs| - 1))
    ensures !ok || |epochs| == EPOCHS
  {
    var lr := LEARNING_RATE_1;
    epochs := [];
    for epoch := 0 to EPOCHS
      invariant |epochs| == epoch
      invariant lr == if epoch <= EPOCHS / 2 then LEARNING_RATE_1 else LEARNING_RATE_2
      invariant forall e :: 0 <= e < epoch ==> epochs[e] == EpochAt(trainingData, prefix, e)
      invariant SavedBefore(saved, prefix, epoch)
    {
      if epoch == EPOCHS / 2 { lr := LEARNING_RATE_2; }
      var len := |trainingData| / 10;
      var startingPoint := (epoch % 10) * len;
      ShardInBounds(epoch, |trainingData|);
      var shard := trainingData[startingPoint..startingPoint + len];
      var name := CheckpointName(prefix, epoch);
      assert Epoch(lr, shard, name) == EpochAt(trainingData, prefix, epoch);
      epochs := epochs + [Epoch(lr, shard, name)];
      if !saved(name) {
        return epochs, false;
      }
    }
    ok := true;
  }

  /** The learning rate only ever steps down, from the first rate to the
      smaller second one, at the halfway epoch. */
  lemma LearningRateSteps(e1: nat, e2: nat)
    requires e1 <= e2
    ensures LearningRateAt(e2) <= LearningRateAt(e1)
    ensures LearningRateAt(e1) == LEARNING_RATE_1 <==> e1 < EPOCHS / 2
  {
  }
}
