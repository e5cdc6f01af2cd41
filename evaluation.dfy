/** The accuracy count of `test` in src/main.rs. The prediction for a quote,
    `round(sigmoid(forward(sentence_to_tensor(k))))`, is foreign and is given as
    a function; the mean loss and the success percentage are floating point and
    are not modelled. */
module Evaluation {
  import opened Dataset

  /** Whether the prediction for a sample matches its label. */
  predicate Correct(predict: string -> bool, s: Sample) {
    predict(s.text) == s.isRaven
  }

  /** The number of samples predicted correctly. */
  function Successes(data: seq<Sample>, predict: string -> bool): (n: nat)
    ensures n <= |data|
  {
    if data == [] then 0
    else Successes(data[..|data| - 1], predict) + (if Correct(predict, data[|data| - 1]) then 1 else 0)
  }

  /** `test`: one test per sample, one success per correct prediction. */
  method Test(data: seq<Sample>, predict: string -> bool) returns (successes: nat, tests: nat)
    ensures tests == |data|
    ensures successes == Successes(data, predict)
  {
    successes, tests := 0, 0;
    for i := 0 to |data|
      invariant tests == i
      invariant successes == Successes(data[..i], predict)
    {
      var (k, v) := (data[i].text, data[i].isRaven);
      var out := predict(k);
      tests := tests + 1;
      if out == v {
        successes := successes + 1;
      }
      assert data[..i + 1][..i] == data[..i];
    }
    assert data[..|data|] == data;
  }

  /** Counting splits over concatenation. */
  lemma {:induction false} SuccessesAppend(a: seq<Sample>, b: seq<Sample>, predict: string -> bool)
    ensures Successes(a + b, predict) == Successes(a, predict) + Successes(b, predict)
    decreases |b|
  {
    if b == [] {
      assert a + b == a;
    } else {
      assert (a + b)[..|a + b| - 1] == a + b[..|b| - 1];
      SuccessesAppend(a, b[..|b| - 1], predict);
    }
  }

  /** All samples are counted as successes exactly when every prediction is correct. */
  lemma {:induction false} AllCorrect(data: seq<Sample>, predict: string -> bool)
    ensures Successes(data, predict) == |data| <==>
      forall i :: 0 <= i < |data| ==> Correct(predict, data[i])
  {
    if data != [] {
      var init := data[..|data| - 1];
      AllCorrect(init, predict);
      assert forall i :: 0 <= i < |init| ==> init[i] == data[i];
    }
  }
}
