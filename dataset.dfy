/** How `train_nn` in src/main.rs builds its labelled data: each corpus is split
    into quotes on blank lines, the quotes are taken round-robin from three
    streams until one runs out, and the first fifth is held out for validation. */
module Dataset {

  /** The quote delimiter of the corpus files. */
  const SEPARATOR := "\n\n"

  /** A quote and whether Ravenholdt wrote it. */
  datatype Sample = Sample(text: string, isRaven: bool)

  /** `str::split`: the pieces between the leftmost non-overlapping occurrences
      of `sep`, scanning from the left. */
  function Split(s: string, sep: string): (chunks: seq<string>)
    requires |sep| > 0
    ensures |chunks| >= 1
    decreases |s|
  {
    if |s| < |sep| then [s]
    else if s[..|sep|] == sep then [""] + Split(s[|sep|..], sep)
    else
      var rest := Split(s[1..], sep);
      [[s[0]] + rest[0]] + rest[1..]
  }

  /** The chunks with `sep` between consecutive ones. */
  function Join(chunks: seq<string>, sep: string): string
    requires |chunks| >= 1
  {
    if |chunks| == 1 then chunks[0] else chunks[0] + sep + Join(chunks[1..], sep)
  }

  /** Splitting loses nothing: joining the chunks gives back the text. */
  lemma {:induction false} JoinSplit(s: string, sep: string)
    requires |sep| > 0
    ensures Join(Split(s, sep), sep) == s
    decreases |s|
  {
    if |s| < |sep| {
    } else if s[..|sep|] == sep {
      JoinSplit(s[|sep|..], sep);
      assert Split(s, sep) == [""] + Split(s[|sep|..], sep);
      JoinCons("", Split(s[|sep|..], sep), sep);
      assert s == sep + s[|sep|..];
    } else {
      JoinSplit(s[1..], sep);
      var rest := Split(s[1..], sep);
      assert Split(s, sep) == [[s[0]] + rest[0]] + rest[1..];
      JoinExtendFirst(s[0], Split(s[1..], sep), sep);
      assert s == [s[0]] + s[1..];
    }
  }

  lemma JoinCons(c: string, rest: seq<string>, sep: string)
    requires |rest| >= 1
    ensures Join([c] + rest, sep) == c + sep + Join(rest, sep)
  {
    assert ([c] + rest)[1..] == rest;
  }

  /** Putting a character in front of the first chunk puts it in front of the
      joined text. */
  lemma JoinExtendFirst(x: char, chunks: seq<string>, sep: string)
    requires |chunks| >= 1
    ensures Join([[x] + chunks[0]] + chunks[1..], sep) == [x] + Join(chunks, sep)
  {
    if |chunks| > 1 {
      JoinCons([x] + chunks[0], chunks[1..], sep);
      assert chunks == [chunks[0]] + chunks[1..];
      JoinCons(chunks[0], chunks[1..], sep);
    }
  }

  /** `sep` occurs in `s` at position `p`. */
  predicate OccursAt(s: string, sep: string, p: nat) {
    p + |sep| <= |s| && s[p..p + |sep|] == sep
  }

  /** `s` has no occurrence of `sep`. */
  ghost predicate Free(s: string, sep: string) {
    forall p: nat :: !OccursAt(s, sep, p)
  }

  /** The first chunk is a prefix of the text. */
  lemma {:induction false} FirstChunkIsPrefix(s: string, sep: string)
    requires |sep| > 0
    ensures Split(s, sep)[0] <= s
    decreases |s|
  {
    if |s| >= |sep| && s[..|sep|] != sep {
      var c := Split(s[1..], sep)[0];
      FirstChunkIsPrefix(s[1..], sep);
      assert Split(s, sep)[0] == [s[0]] + c;
      assert s == [s[0]] + s[1..];
    }
  }

  /** The first chunk ends at the leftmost occurrence of `sep`: there is none
      inside it, and when there is more than one chunk, one starts right
      after it. */
  lemma {:induction false} FirstChunkEndsAtSeparator(s: string, sep: string)
    requires |sep| > 0
    ensures forall p: nat :: p < |Split(s, sep)[0]| ==> !OccursAt(s, sep, p)
    ensures |Split(s, sep)| > 1 ==> OccursAt(s, sep, |Split(s, sep)[0]|)
    decreases |s|
  {
    if |s| < |sep| {
    } else if s[..|sep|] == sep {
      assert Split(s, sep)[0] == "";
      assert s[0..|sep|] == s[..|sep|];
    } else {
      var rest := Split(s[1..], sep);
      FirstChunkEndsAtSeparator(s[1..], sep);
      assert Split(s, sep) == [[s[0]] + rest[0]] + rest[1..];
      forall p: nat | p < |Split(s, sep)[0]|
        ensures !OccursAt(s, sep, p)
      {
        if p == 0 {
          assert s[0..|sep|] == s[..|sep|];
        } else if OccursAt(s, sep, p) {
          assert s[1..][p - 1..p - 1 + |sep|] == s[p..p + |sep|];
          assert OccursAt(s[1..], sep, p - 1);
        }
      }
      if |rest| > 1 {
        ShiftOccurrence(s, sep, |rest[0]|);
      }
    }
  }

  /** Overlapping separators are taken from the left: three newlines are an
      empty quote followed by a quote holding one newline. */
  lemma OverlappingSeparator()
    ensures Split("\n\n\n", SEPARATOR) == ["", "\n"]
  {
    assert "\n\n\n"[2..] == "\n";
    assert Split("\n", SEPARATOR) == ["\n"];
  }

  /** An occurrence in the tail is an occurrence one position later. */
  lemma ShiftOccurrence(s: string, sep: string, p: nat)
    requires |s| >= 1 && OccursAt(s[1..], sep, p)
    ensures OccursAt(s, sep, p + 1)
  {
    assert s[p + 1..p + 1 + |sep|] == s[1..][p..p + |sep|];
  }

  /** No chunk contains the separator, so the chunks are exactly the quotes. */
  lemma {:induction false} ChunksAreFree(s: string, sep: string)
    requires |sep| > 0
    ensures forall i :: 0 <= i < |Split(s, sep)| ==> Free(Split(s, sep)[i], sep)
    decreases |s|
  {
    if |s| < |sep| {
    } else if s[..|sep|] == sep {
      ChunksAreFree(s[|sep|..], sep);
      assert Split(s, sep) == [""] + Split(s[|sep|..], sep);
    } else {
      var rest := Split(s[1..], sep);
      ChunksAreFree(s[1..], sep);
      FirstChunkIsPrefix(s[1..], sep);
      assert Split(s, sep) == [[s[0]] + rest[0]] + rest[1..];
      assert s == [s[0]] + s[1..];
      ExtendFree(s[0], rest[0], s, sep);
    }
  }

  /** A chunk free of `sep`, grown by one character in front, stays free when
      the text it starts does not start with `sep`. */
  lemma ExtendFree(x: char, c: string, s: string, sep: string)
    requires |sep| > 0 && Free(c, sep) && [x] + c <= s
    requires !OccursAt(s, sep, 0)
    ensures Free([x] + c, sep)
  {
    var first := [x] + c;
    forall p: nat
      ensures !OccursAt(first, sep, p)
    {
      if p == 0 {
        if |sep| <= |first| {
          assert first[..|sep|] == s[..|sep|];
        }
      } else if p + |sep| <= |first| {
        assert first[p..p + |sep|] == c[p - 1..p - 1 + |sep|];
        assert !OccursAt(c, sep, p - 1);
      }
    }
  }

  /** The negative stream `bi`: the berk quotes followed by the sidju quotes. */
  function OtherQuotes(berk: string, sidju: string): (bi: seq<string>)
    ensures |bi| == |Split(berk, SEPARATOR)| + |Split(sidju, SEPARATOR)| >= 2
    ensures bi[..|Split(berk, SEPARATOR)|] == Split(berk, SEPARATOR)
    ensures bi[|Split(berk, SEPARATOR)|..] == Split(sidju, SEPARATOR)
  {
    Split(berk, SEPARATOR) + Split(sidju, SEPARATOR)
  }

  /** The samples the round-robin loop produces: one from each stream in turn,
      stopping at the first stream that is empty. */
  function RoundRobin(bi: seq<string>, ri: seq<string>, di: seq<string>): seq<Sample> {
    if bi == [] then []
    else if ri == [] then [Sample(bi[0], false)]
    else if di == [] then [Sample(bi[0], false), Sample(ri[0], true)]
    else [Sample(bi[0], false), Sample(ri[0], true), Sample(di[0], false)]
         + RoundRobin(bi[1..], ri[1..], di[1..])
  }

  function Min3(a: nat, b: nat, c: nat): nat {
    if a <= b && a <= c then a else if b <= c then b else c
  }

  /** The length of the interleaving: three per full round, plus one or two
      from the round in which a stream other than the first runs out. */
  lemma {:induction false} RoundRobinLength(bi: seq<string>, ri: seq<string>, di: seq<string>)
    ensures var k := Min3(|bi|, |ri|, |di|);
      |RoundRobin(bi, ri, di)| ==
        3 * k + (if |bi| > k then 1 else 0) + (if |bi| > k && |ri| > k then 1 else 0)
  {
    if bi != [] && ri != [] && di != [] {
      RoundRobinLength(bi[1..], ri[1..], di[1..]);
    }
  }

  /** Entry `3j` comes from the negative stream, `3j + 1` from Ravenholdt and
      `3j + 2` from dreamer, each the `j`-th of its stream. */
  lemma {:induction false} RoundRobinAt(bi: seq<string>, ri: seq<string>, di: seq<string>, j: nat)
    ensures 3 * j < |RoundRobin(bi, ri, di)| ==>
      j < |bi| && RoundRobin(bi, ri, di)[3 * j] == Sample(bi[j], false)
    ensures 3 * j + 1 < |RoundRobin(bi, ri, di)| ==>
      j < |ri| && RoundRobin(bi, ri, di)[3 * j + 1] == Sample(ri[j], true)
    ensures 3 * j + 2 < |RoundRobin(bi, ri, di)| ==>
      j < |di| && RoundRobin(bi, ri, di)[3 * j + 2] == Sample(di[j], false)
  {
    if bi != [] && ri != [] && di != [] && j > 0 {
      RoundRobinAt(bi[1..], ri[1..], di[1..], j - 1);
    }
  }

  /** Corpora of 50 negative, 10 Ravenholdt and 8 dreamer quotes give 26
      samples, not 3 * 8. */
  lemma UnbalancedExample(bi: seq<string>, ri: seq<string>, di: seq<string>)
    requires |bi| == 50 && |ri| == 10 && |di| == 8
    ensures |RoundRobin(bi, ri, di)| == 26
  {
    RoundRobinLength(bi, ri, di);
  }

  /** The `loop` of `train_nn`: the three iterators are consumed in turn and each
      quote is pushed with its label until an iterator is exhausted. */
  method Interleave(bi: seq<string>, ri: seq<string>, di: seq<string>) returns (data: seq<Sample>)
    ensures data == RoundRobin(bi, ri, di)
  {
    data := [];
    var b, r, d := bi, ri, di;
    while true
      invariant data + RoundRobin(b, r, d) == RoundRobin(bi, ri, di)
      decreases |b|
    {
      if b != [] {
        data := data + [Sample(b[0], false)];
      } else { break; }
      if r != [] {
        data := data + [Sample(r[0], true)];
      } else {
        assert data == RoundRobin(bi, ri, di);
        break;
      }
      if d != [] {
        data := data + [Sample(d[0], false)];
      } else {
        assert data == RoundRobin(bi, ri, di);
        break;
      }
      b, r, d := b[1..], r[1..], d[1..];
    }
  }

  /** `Vec::split_off(at)`: the first `at` elements stay, the rest are returned. */
  function SplitOff<T>(v: seq<T>, at: nat): (r: (seq<T>, seq<T>))
    requires at <= |v|
    ensures |r.0| == at && r.0 + r.1 == v
  {
    (v[..at], v[at..])
  }

  /** All samples, before the validation split. */
  function Samples(berk: string, raven: string, dreamer: string, sidju: string): (data: seq<Sample>)
    ensures var k := Min3(|OtherQuotes(berk, sidju)|, |Split(raven, SEPARATOR)|, |Split(dreamer, SEPARATOR)|);
      3 * k <= |data| <= 3 * k + 2
    ensures |data| <= 3 * |Split(raven, SEPARATOR)| + 1
    ensures |data| >= 1
  {
    RoundRobinLength(OtherQuotes(berk, sidju), Split(raven, SEPARATOR), Split(dreamer, SEPARATOR));
    RoundRobin(OtherQuotes(berk, sidju), Split(raven, SEPARATOR), Split(dreamer, SEPARATOR))
  }

  /** The data preparation of `train_nn`: split the four corpora, interleave,
      and hold out the first fifth for validation. */
  method BuildData(berk: string, raven: string, dreamer: string, sidju: string)
    returns (trainingData: seq<Sample>, validationData: seq<Sample>)
    ensures validationData + trainingData == Samples(berk, raven, dreamer, sidju)
    ensures |validationData| == |Samples(berk, raven, dreamer, sidju)| / 5
  {
    var bi := Split(berk, SEPARATOR) + Split(sidju, SEPARATOR);
    var ri := Split(raven, SEPARATOR);
    var di := Split(dreamer, SEPARATOR);
    var data := Interleave(bi, ri, di);
    var parts := SplitOff(data, |data| / 5);
    data, trainingData := parts.0, parts.1;
    validationData := data;
  }

  /** The negative stream holds the berk quotes, in order, then the sidju
      quotes, in order. */
  lemma OtherQuotesOrder(berk: string, sidju: string, j: nat)
    requires j < |OtherQuotes(berk, sidju)|
    ensures var nb := |Split(berk, SEPARATOR)|;
      if j < nb then OtherQuotes(berk, sidju)[j] == Split(berk, SEPARATOR)[j]
      else OtherQuotes(berk, sidju)[j] == Split(sidju, SEPARATOR)[j - nb]
  {
  }

  /** Entry `i` of the interleaving, by its round `i / 3` and its turn `i % 3`. */
  lemma RoundRobinIndex(bi: seq<string>, ri: seq<string>, di: seq<string>, i: nat)
    requires i < |RoundRobin(bi, ri, di)|
    ensures var j := i / 3;
      if i % 3 == 0 then j < |bi| && RoundRobin(bi, ri, di)[i] == Sample(bi[j], false)
      else if i % 3 == 1 then j < |ri| && RoundRobin(bi, ri, di)[i] == Sample(ri[j], true)
      else j < |di| && RoundRobin(bi, ri, di)[i] == Sample(di[j], false)
  {
    var j := i / 3;
    RoundRobinAt(bi, ri, di, j);
    if i % 3 == 0 {
      assert i == 3 * j;
    } else if i % 3 == 1 {
      assert i == 3 * j + 1;
    } else {
      assert i == 3 * j + 2;
    }
  }

  /** Each sample of the data is the quote of its stream at its round, with
      that stream's label: position `i` comes from round `i / 3` of the
      negative stream, Ravenholdt and dreamer for `i % 3` = 0, 1, 2. */
  lemma SampleOrigins(berk: string, raven: string, dreamer: string, sidju: string, i: nat)
    requires i < |Samples(berk, raven, dreamer, sidju)|
    ensures var s := Samples(berk, raven, dreamer, sidju)[i];
      s.isRaven <==> i % 3 == 1
    ensures var s := Samples(berk, raven, dreamer, sidju)[i];
      i % 3 == 0 ==> i / 3 < |OtherQuotes(berk, sidju)| && s.text == OtherQuotes(berk, sidju)[i / 3]
    ensures var s := Samples(berk, raven, dreamer, sidju)[i];
      i % 3 == 1 ==> i / 3 < |Split(raven, SEPARATOR)| && s.text == Split(raven, SEPARATOR)[i / 3]
    ensures var s := Samples(berk, raven, dreamer, sidju)[i];
      i % 3 == 2 ==> i / 3 < |Split(dreamer, SEPARATOR)| && s.text == Split(dreamer, SEPARATOR)[i / 3]
  {
    RoundRobinIndex(OtherQuotes(berk, sidju), Split(raven, SEPARATOR), Split(dreamer, SEPARATOR), i);
  }
}
