/** The C-callable library of src/lib.rs: `ravensaid_init` loads a network into
    a heap-allocated state, `ravensaid` rates a message with it, and
    `ravensaid_free` releases it. The network itself (the forward pass and the
    sigmoid) and the loading of weights are foreign and are given as functions. */
module Library {
  import opened Utf8
  import opened Wrappers
  import Encoder

  const INPUT_BYTES := 32
  const INPUT_SIZE := INPUT_BYTES * 256

  /** The message is null or not UTF-8. */
  const BAD_MESSAGE := -1
  /** The network's output was above 2.0 (over 200%). */
  const OUTPUT_TOO_HIGH := -2
  /** The network's output was negative. */
  const OUTPUT_NEGATIVE := -3

  /** The bytes of a C string up to its terminator: none of them is NUL. */
  type NulFree = s: seq<byte> | forall i :: 0 <= i < |s| ==> s[i] != 0

  /** A `*const c_char` from C: the null pointer, or the bytes before the
      terminating NUL. */
  datatype CString = Null | CStr(bytes: NulFree)

  /** `CStr::from_ptr(p).to_str()` succeeds. */
  predicate IsText(p: CString) {
    p.CStr? && Valid(p.bytes)
  }

  /** A loaded network: the sigmoid of the forward pass, from an input vector
      to a probability. */
  type Network = seq<real> -> real

  /** `RavensaidState`: the loaded network. Whether the C side still owns it is
      bookkeeping only. */
  class RavensaidState {
    const net: Network
    ghost var live: bool

    constructor (net: Network)
      ensures this.net == net && live
    {
      this.net := net;
      live := true;
    }
  }

  /** `ravensaid_init`: null for a null path, a path that is not UTF-8, or a
      failed load; otherwise a new state holding the loaded network. */
  method RavensaidInit(path: CString, load: seq<byte> -> Option<Network>)
    returns (state: RavensaidState?)
    ensures state == null <==> !IsText(path) || load(path.bytes).None?
    ensures state != null ==> fresh(state) && state.live && state.net == load(path.bytes).value
  {
    if path.Null? {
      return null;
    }
    if !Valid(path.bytes) {
      return null;
    }
    var loaded := load(path.bytes);
    if loaded.None? {
      return null;
    }
    state := new RavensaidState(loaded.value);
  }

  /** `ravensaid_free`: the state must not be null (the source panics) and must
      not have been freed already; afterwards it is gone. */
  method RavensaidFree(state: RavensaidState?)
    requires state != null && state.live
    modifies state
    ensures !state.live
  {
    state.live := false;
  }

  /** The fixed-point conversion: an output outside [0, 2] is an error code,
      anything else is the output in hundredths of a percent, truncated. */
  function FixedPoint(output: real): (code: int)
    ensures output > 2.0 ==> code == OUTPUT_TOO_HIGH
    ensures output < 0.0 ==> code == OUTPUT_NEGATIVE
    ensures 0.0 <= output <= 2.0 ==> code as real <= output * 10000.0 < code as real + 1.0
  {
    if output > 2.0 then OUTPUT_TOO_HIGH
    else if output < 0.0 then OUTPUT_NEGATIVE
    else (output * 100.0 * 100.0).Floor
  }

  /** A rating lies in [0, 20000], in [0, 10000] for a true probability, and is
      never one of the error codes. */
  lemma FixedPointRange(output: real)
    ensures FixedPoint(output) >= 0 <==> 0.0 <= output <= 2.0
    ensures 0.0 <= output <= 2.0 ==> FixedPoint(output) <= 20000
    ensures 0.0 <= output <= 1.0 ==> FixedPoint(output) <= 10000
    ensures FixedPoint(output) != BAD_MESSAGE
  {
  }

  /** A higher output never gets a lower rating. */
  lemma FixedPointMonotone(a: real, b: real)
    requires 0.0 <= a <= b <= 2.0
    ensures FixedPoint(a) <= FixedPoint(b)
  {
    assert FixedPoint(a) as real <= b * 10000.0;
  }

  /** What `ravensaid` returns for `message` with network `net`. */
  function Rating(message: CString, net: Network): (code: int)
    ensures code == BAD_MESSAGE <==> !IsText(message)
    ensures -3 <= code <= 20000
  {
    if !IsText(message) then BAD_MESSAGE
    else FixedPoint(net(Encoder.OneHot(message.bytes)))
  }

  /** `ravensaid`: reject a bad message before touching the state, encode the
      first 32 bytes one-hot (the copy of `sentence_to_tensor` inlined in the
      library), run the network and convert its output. */
  method Ravensaid(state: RavensaidState?, message: CString) returns (code: int)
    requires IsText(message) ==> state != null && state.live
    ensures !IsText(message) ==> code == BAD_MESSAGE
    ensures state != null ==> code == Rating(message, state.net)
  {
    if message.Null? {
      return BAD_MESSAGE;
    }
    if !Valid(message.bytes) {
      return BAD_MESSAGE;
    }
    var bytes := message.bytes;
    var tmp := new real[INPUT_SIZE](_ => 0.0);
    var i := 0;
    while i < |bytes|
      invariant i <= |bytes| && i <= INPUT_BYTES
      invariant forall k :: 0 <= k < INPUT_SIZE ==> tmp[k] == Encoder.EntryAfter(bytes, i, k)
    {
      if i >= 32 { break; }
      var b := bytes[i];
      tmp[i * 256 + b] := 1.0;
      i := i + 1;
    }
    var inputTensor := tmp[..];
    assert inputTensor == Encoder.OneHot(bytes);
    var output := state.net(inputTensor);
    code := FixedPoint(output);
  }

  /** The result codes: -1 exactly for a bad message, whatever the network;
      otherwise -2, -3 or a rating in [0, 20000]. */
  lemma RatingCodes(message: CString, net: Network)
    ensures Rating(message, net) == BAD_MESSAGE <==> !IsText(message)
    ensures Rating(message, net) == BAD_MESSAGE || Rating(message, net) == OUTPUT_TOO_HIGH
         || Rating(message, net) == OUTPUT_NEGATIVE || 0 <= Rating(message, net) <= 20000
  {
    if IsText(message) {
      FixedPointRange(net(Encoder.OneHot(message.bytes)));
    }
  }

  /** A bad message is rejected before the network runs: its result does not
      depend on the network. */
  lemma BadMessageIgnoresNetwork(message: CString, net1: Network, net2: Network)
    requires !IsText(message)
    ensures Rating(message, net1) == Rating(message, net2) == BAD_MESSAGE
  {
  }

  /** A message made from a string (without NUL) is never rejected as bad. */
  lemma StringMessagesAreRated(s: string, net: Network)
    requires forall i :: 0 <= i < |s| ==> s[i] != '\0'
    ensures forall i :: 0 <= i < |Encode(s)| ==> Encode(s)[i] != 0
    ensures Rating(CStr(Encode(s)), net) != BAD_MESSAGE
  {
    EncodeIsValid(s);
    EncodeNoNul(s);
  }
}
