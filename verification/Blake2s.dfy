/**
 The BLAKE2s input format: field elements as 32-bit words, and words as 64-byte blocks
 (src/starkware/cairo/common/cairo_blake2s/blake2s_utils.py).
 */
module Blake2s {
  import opened Common

  const WORD := 0x1_0000_0000
  const HALF_WORD := 0x8000_0000

  /** 2^(32 n). */
  function PowW(n: nat): (r: nat)
    ensures r >= 1
  {
    if n == 0 then 1 else WORD * PowW(n - 1)
  }

  const POW2_63 := 0x8000_0000_0000_0000

  function Pow2To255(): nat {
    HALF_WORD * PowW(7)
  }

  // ---------------------------------------------------------------------------
  // Words of a value
  // ---------------------------------------------------------------------------

  /** The `n` words of a value, least significant first. */
  function Words(v: nat, n: nat): (r: seq<nat>)
    ensures |r| == n
    decreases n
  {
    if n == 0 then [] else [v % WORD] + Words(v / WORD, n - 1)
  }

  function Value(ws: seq<nat>): nat {
    if ws == [] then 0 else ws[0] + WORD * Value(ws[1..])
  }

  lemma {:induction false} ValueOfWords(v: nat, n: nat)
    requires v < PowW(n)
    ensures Value(Words(v, n)) == v
    decreases n
  {
    if n > 0 {
      ValueOfWords(v / WORD, n - 1);
      assert Words(v, n)[1..] == Words(v / WORD, n - 1);
    }
  }

  lemma DivW(v: nat, p: nat)
    requires p > 0
    ensures v / WORD / p == v / (WORD * p)
  {
    var q, r := v / WORD, v % WORD;
    var a, b := q / p, q % p;
    assert q == a * p + b;
    assert v == WORD * (a * p + b) + r;
    assert WORD * (a * p) == a * (WORD * p);
    assert 0 <= WORD * b + r < WORD * p;
    DivUnique(v, WORD * p, a, WORD * b + r);
  }

  /** `(v >> 32 i) & 0xFFFFFFFF` */
  function ShiftMask(v: nat, i: nat): nat {
    QuotientNat(v, PowW(i));
    (v / PowW(i)) % WORD
  }

  /** Word `i` is what the loop takes with a shift and a mask. */
  lemma {:induction false} WordAt(v: nat, n: nat, i: nat)
    requires i < n
    ensures Words(v, n)[i] == ShiftMask(v, i)
    decreases i
  {
    if i > 0 {
      WordAt(v / WORD, n - 1, i - 1);
      DivW(v, PowW(i - 1));
    }
  }

  /** The last word tells values below 2^(32 n - 1) from the others. */
  lemma {:induction false} TopWord(v: nat, n: nat)
    requires 0 < n && v < PowW(n)
    ensures Words(v, n)[n - 1] < HALF_WORD <==> v < HALF_WORD * PowW(n - 1)
    decreases n
  {
    if n == 1 {
      assert PowW(1) == WORD;
    } else {
      TopWord(v / WORD, n - 1);
      var p := PowW(n - 2);
      assert HALF_WORD * (WORD * p) == WORD * (HALF_WORD * p);
    }
  }

  // ---------------------------------------------------------------------------
  // Field elements as words
  // ---------------------------------------------------------------------------

  /** How many words a reduced element takes. */
  function Count(val: nat, encode: bool): nat {
    if encode && val < POW2_63 then 2 else 8
  }

  /** The element with its 255-bit flag. */
  function Flagged(val: nat, encode: bool): nat {
    if encode && Count(val, encode) == 8 then val + Pow2To255() else val
  }

  function EncodeReduced(val: nat, encode: bool, littleEndian: bool): seq<nat> {
    var words := Words(Flagged(val, encode), Count(val, encode));
    if littleEndian then words else Reverse(words)
  }

  lemma ModNat(x: int, p: int)
    requires p > 0
    ensures 0 <= x % p < p
  {}

  /** The words of one field element. */
  function EncodeOne(felt: int, encode: bool, littleEndian: bool, prime: int): seq<nat>
    requires prime > 0
  {
    ModNat(felt, prime);
    EncodeReduced(felt % prime, encode, littleEndian)
  }

  function Encode(data: seq<int>, encode: bool, littleEndian: bool, prime: int): seq<nat>
    requires prime > 0
  {
    if data == [] then []
    else EncodeOne(data[0], encode, littleEndian, prime) + Encode(data[1..], encode, littleEndian, prime)
  }

  lemma {:induction false} EncodeConcat(a: seq<int>, b: seq<int>, encode: bool, littleEndian: bool, prime: int)
    requires prime > 0
    ensures Encode(a + b, encode, littleEndian, prime)
         == Encode(a, encode, littleEndian, prime) + Encode(b, encode, littleEndian, prime)
  {
    if a == [] {
      assert a + b == b;
    } else {
      assert (a + b)[1..] == a[1..] + b;
      EncodeConcat(a[1..], b, encode, littleEndian, prime);
    }
  }

  lemma EncodeSingle(x: int, encode: bool, littleEndian: bool, prime: int)
    requires prime > 0
    ensures Encode([x], encode, littleEndian, prime) == EncodeOne(x, encode, littleEndian, prime)
  {
    assert [x][1..] == [];
  }

  /** The loop over the shifts of one element. */
  method ShiftWords(val: nat, wordCnt: nat, littleEndian: bool) returns (words: seq<nat>)
    ensures words == if littleEndian then Words(val, wordCnt) else Reverse(Words(val, wordCnt))
  {
    words := [];
    for j := 0 to wordCnt
      invariant |words| == j
      invariant forall i :: 0 <= i < j ==> words[i] == Words(val, wordCnt)[if littleEndian then i else wordCnt - 1 - i]
    {
      var shift: nat := if littleEndian then j else wordCnt - 1 - j;
      WordAt(val, wordCnt, shift);
      words := words + [ShiftMask(val, shift)];
    }
  }

  /** The body of the loop over the elements. */
  method EncodeElement(reduced: nat, encode: bool, littleEndian: bool) returns (words: seq<nat>)
    ensures words == EncodeReduced(reduced, encode, littleEndian)
  {
    var val := reduced;
    var wordCnt := Count(val, encode);
    if encode && wordCnt == 8 {
      val := val + Pow2To255();
    }
    assert val == Flagged(reduced, encode);
    words := ShiftWords(val, wordCnt, littleEndian);
  }

  /** The loop over the elements. */
  method EncodeWords(data: seq<int>, encode: bool, littleEndian: bool, prime: int) returns (words: seq<nat>)
    requires prime > 0
    ensures words == Encode(data, encode, littleEndian, prime)
  {
    words := [];
    for k := 0 to |data|
      invariant words == Encode(data[..k], encode, littleEndian, prime)
    {
      ModNat(data[k], prime);
      var ws := EncodeElement(data[k] % prime, encode, littleEndian);
      assert data[..k + 1] == data[..k] + [data[k]];
      EncodeConcat(data[..k], [data[k]], encode, littleEndian, prime);
      EncodeSingle(data[k], encode, littleEndian, prime);
      words := words + ws;
    }
    assert data[..|data|] == data;
  }

  // ---------------------------------------------------------------------------
  // The encoding can be read back
  // ---------------------------------------------------------------------------

  /** How many words the next element of a big-endian stream has. */
  function NextCount(words: seq<nat>, encode: bool): nat
    requires words != []
  {
    if encode && words[0] < HALF_WORD then 2 else 8
  }

  /** The element with the given words, least significant first. */
  function DecodeOne(words: seq<nat>, encode: bool): int {
    if encode && |words| == 8 then Value(words) - Pow2To255() else Value(words)
  }

  /** Reads a big-endian stream from the front. */
  function DecodeBig(words: seq<nat>, encode: bool): seq<int>
    decreases |words|
  {
    if words == [] || |words| < NextCount(words, encode) then []
    else
      var n := NextCount(words, encode);
      [DecodeOne(Reverse(words[..n]), encode)] + DecodeBig(words[n..], encode)
  }

  /** Reads a little-endian stream from the back. */
  function DecodeLittle(words: seq<nat>, encode: bool): seq<int> {
    Reverse(DecodeBig(Reverse(words), encode))
  }

  function Decode(words: seq<nat>, encode: bool, littleEndian: bool): seq<int> {
    if littleEndian then DecodeLittle(words, encode) else DecodeBig(words, encode)
  }

  function Modulo(prime: int): int -> int
    requires prime > 0
  {
    x => x % prime
  }

  function ReducedFelts(data: seq<int>, prime: int): (r: seq<int>)
    requires prime > 0
    ensures |r| == |data|
  {
    Map(Modulo(prime), data)
  }

  lemma WordBounds()
    ensures POW2_63 == HALF_WORD * PowW(1) && PowW(2) == 2 * POW2_63
    ensures PowW(8) == 2 * Pow2To255()
  {
    assert PowW(1) == WORD * PowW(0);
    assert PowW(8) == WORD * PowW(7);
  }

  /** What the leading word says of an element. */
  lemma LeadingWord(val: nat, encode: bool)
    requires val < Pow2To255()
    ensures Flagged(val, encode) < PowW(Count(val, encode))
    ensures encode ==>
      (Words(Flagged(val, encode), Count(val, encode))[Count(val, encode) - 1] < HALF_WORD <==> Count(val, encode) == 2)
  {
    WordBounds();
    TopWord(Flagged(val, encode), Count(val, encode));
  }

  /** The words of one number are read back whatever follows them. */
  lemma WordsRoundTrip(ws: seq<nat>, encode: bool, rest: seq<nat>)
    requires ws != [] && |ws| == if encode && ws[|ws| - 1] < HALF_WORD then 2 else 8
    ensures DecodeBig(Reverse(ws) + rest, encode) == [DecodeOne(ws, encode)] + DecodeBig(rest, encode)
  {
    var n, words := |ws|, Reverse(ws) + rest;
    assert words[0] == ws[n - 1];
    assert words[..n] == Reverse(ws) && words[n..] == rest;
    ReverseTwice(ws);
  }

  /** One element is read back whatever follows it. */
  lemma ElementRoundTrip(val: nat, encode: bool, rest: seq<nat>)
    requires val < Pow2To255()
    ensures DecodeBig(EncodeReduced(val, encode, false) + rest, encode) == [val] + DecodeBig(rest, encode)
  {
    LeadingWord(val, encode);
    var ws := Words(Flagged(val, encode), Count(val, encode));
    ValueOfWords(Flagged(val, encode), Count(val, encode));
    WordsRoundTrip(ws, encode, rest);
  }

  lemma {:induction false} BigRoundTrip(data: seq<int>, encode: bool, prime: int)
    requires 0 < prime <= Pow2To255()
    ensures DecodeBig(Encode(data, encode, false, prime), encode) == ReducedFelts(data, prime)
  {
    if data != [] {
      BigRoundTrip(data[1..], encode, prime);
      ModNat(data[0], prime);
      ElementRoundTrip(data[0] % prime, encode, Encode(data[1..], encode, false, prime));
    }
  }

  /** A little-endian stream read backwards is the big-endian stream of the data read backwards. */
  lemma {:induction false} LittleIsReversedBig(data: seq<int>, encode: bool, prime: int)
    requires prime > 0
    ensures Reverse(Encode(data, encode, true, prime)) == Encode(Reverse(data), encode, false, prime)
  {
    if data != [] {
      var x, rest := data[0], data[1..];
      LittleIsReversedBig(rest, encode, prime);
      ReverseConcat(EncodeOne(x, encode, true, prime), Encode(rest, encode, true, prime));
      EncodeConcat(Reverse(rest), [x], encode, false, prime);
      EncodeSingle(x, encode, false, prime);
    }
  }

  /** Main result: in both byte orders the words determine the reduced elements. */
  lemma RoundTrip(data: seq<int>, encode: bool, littleEndian: bool, prime: int)
    requires 0 < prime <= Pow2To255()
    ensures Decode(Encode(data, encode, littleEndian, prime), encode, littleEndian) == ReducedFelts(data, prime)
  {
    if littleEndian {
      LittleIsReversedBig(data, encode, prime);
      BigRoundTrip(Reverse(data), encode, prime);
      MapReverse(Modulo(prime), data);
    } else {
      BigRoundTrip(data, encode, prime);
    }
  }

  lemma ModTwice(x: int, p: int)
    requires p > 0
    ensures (x % p) % p == x % p
  {
    DivUnique(x % p, p, 0, x % p);
  }

  lemma {:induction false} EncodeOfReduced(data: seq<int>, encode: bool, littleEndian: bool, prime: int)
    requires prime > 0
    ensures Encode(data, encode, littleEndian, prime) == Encode(ReducedFelts(data, prime), encode, littleEndian, prime)
  {
    if data != [] {
      EncodeOfReduced(data[1..], encode, littleEndian, prime);
      ModTwice(data[0], prime);
      assert ReducedFelts(data, prime)[1..] == ReducedFelts(data[1..], prime);
    }
  }

  /** The encoding is injective up to reduction, and no further. */
  lemma EncodeInjective(a: seq<int>, b: seq<int>, encode: bool, littleEndian: bool, prime: int)
    requires 0 < prime <= Pow2To255()
    ensures Encode(a, encode, littleEndian, prime) == Encode(b, encode, littleEndian, prime) <==>
      ReducedFelts(a, prime) == ReducedFelts(b, prime)
  {
    RoundTrip(a, encode, littleEndian, prime);
    RoundTrip(b, encode, littleEndian, prime);
    EncodeOfReduced(a, encode, littleEndian, prime);
    EncodeOfReduced(b, encode, littleEndian, prime);
  }

  // ---------------------------------------------------------------------------
  // The block loop
  // ---------------------------------------------------------------------------

  /** The arguments of one call of the compression function, besides the state; f1 is always 0. */
  datatype Call = Call(block: seq<nat>, t0: nat, t1: nat, f0: nat)

  const FINAL_FLAG := 0xFFFF_FFFF

  function Min(a: int, b: int): int {
    if a < b then a else b
  }

  /** `block += [0] * (16 - len(block))` */
  function Pad(block: seq<nat>): (r: seq<nat>)
    ensures |block| <= 16 ==> |r| == 16
  {
    if |block| < 16 then block + seq(16 - |block|, _ => 0) else block
  }

  /** The words of block `k`, which stop at the end of the stream. */
  function Block(words: seq<nat>, k: nat): (r: seq<nat>)
    ensures |r| <= 16
  {
    words[Min(16 * k, |words|)..Min(16 * k + 16, |words|)]
  }

  /** The calls of the loop from block `k` on. */
  function CallsFrom(words: seq<nat>, k: nat, bytesSeen: nat): seq<Call>
    requires bytesSeen <= 4 * |words|
    decreases |words| + 1 - 16 * k
  {
    if 16 * k >= |words| && 16 * k >= 1 then []
    else
      var total := 4 * |words|;
      var seen := bytesSeen + Min(64, total - bytesSeen);
      [Call(Pad(Block(words, k)), seen, 0, if seen == total then FINAL_FLAG else 0)] + CallsFrom(words, k + 1, seen)
  }

  /** `compress` over the calls, one after the other. */
  function Fold<S>(compress: (S, Call) -> S, state: S, calls: seq<Call>): S
    decreases |calls|
  {
    if calls == [] then state else Fold(compress, compress(state, calls[0]), calls[1..])
  }

  /** The block loop of calculate_blake2s_hash_from_felt252s. */
  method HashWords<S>(compress: (S, Call) -> S, init: S, words: seq<nat>) returns (state: S)
    ensures state == Fold(compress, init, CallsFrom(words, 0, 0))
  {
    state := init;
    var totalBytes := |words| * 4;
    var bytesSeen: nat := 0;
    var k := 0;
    while 16 * k < |words| || 16 * k < 1
      invariant k >= 0 && bytesSeen <= totalBytes
      invariant Fold(compress, init, CallsFrom(words, 0, 0)) == Fold(compress, state, CallsFrom(words, k, bytesSeen))
      decreases |words| + 1 - 16 * k
    {
      var block := Pad(Block(words, k));
      bytesSeen := bytesSeen + Min(64, totalBytes - bytesSeen);
      var f0 := if bytesSeen == totalBytes then FINAL_FLAG else 0;
      state := compress(state, Call(block, bytesSeen, 0, f0));
      k := k + 1;
    }
  }

  // ---------------------------------------------------------------------------
  // Section 3.3 of RFC 7693
  // ---------------------------------------------------------------------------

  /** The number of blocks; an empty message still has one. */
  function BlockCount(words: seq<nat>): nat {
    if words == [] then 1 else (|words| + 15) / 16
  }

  /** The offset counter of block `i`: the bytes up to its end, or all bytes for the last one. */
  function Counter(words: seq<nat>, i: nat): nat {
    if i + 1 < BlockCount(words) then 64 * (i + 1) else 4 * |words|
  }

  /** Word `j` of block `i` of the message, which is filled up with zeros. */
  function MessageWord(words: seq<nat>, i: nat, j: nat): nat {
    if 16 * i + j < |words| then words[16 * i + j] else 0
  }

  function MessageBlock(words: seq<nat>, i: nat): (r: seq<nat>)
    ensures |r| == 16
  {
    seq(16, j requires 0 <= j < 16 => MessageWord(words, i, j))
  }

  /** The slice of the code with its zeros is the block of the standard. */
  lemma BlockIs(words: seq<nat>, i: nat)
    ensures Pad(Block(words, i)) == MessageBlock(words, i)
  {
    var block := Pad(Block(words, i));
    forall j | 0 <= j < 16 ensures block[j] == MessageWord(words, i, j) {}
  }

  /** Call `i` of the standard, with the counter as two words. */
  function StandardCall(words: seq<nat>, i: nat): Call {
    Call(MessageBlock(words, i), Counter(words, i) % WORD, Counter(words, i) / WORD,
         if i + 1 == BlockCount(words) then FINAL_FLAG else 0)
  }

  /** What the code passes in call `i`. */
  function CodeCall(words: seq<nat>, i: nat): Call {
    Call(MessageBlock(words, i), Counter(words, i), 0, if i + 1 == BlockCount(words) then FINAL_FLAG else 0)
  }

  /** The counter is the number of bytes so far, and the flag is set on the last block only. */
  lemma CounterIs(words: seq<nat>, i: nat)
    requires i < BlockCount(words)
    ensures Counter(words, i) == Min(64 * (i + 1), 4 * |words|)
    ensures Counter(words, i) == 4 * |words| <==> i + 1 == BlockCount(words)
    ensures i > 0 ==> 16 * i < |words|
  {}

  lemma CallsStep(words: seq<nat>, k: nat)
    requires k < BlockCount(words) && 64 * k <= 4 * |words|
    ensures Counter(words, k) <= 4 * |words|
    ensures CallsFrom(words, k, 64 * k) == [CodeCall(words, k)] + CallsFrom(words, k + 1, Counter(words, k))
  {
    CounterIs(words, k);
    BlockIs(words, k);
  }

  lemma {:induction false} CallsFromIs(words: seq<nat>, k: nat, i: nat)
    requires k <= i < BlockCount(words) && 64 * k <= 4 * |words|
    ensures |CallsFrom(words, k, 64 * k)| == BlockCount(words) - k
    ensures CallsFrom(words, k, 64 * k)[i - k] == CodeCall(words, i)
    decreases BlockCount(words) - k
  {
    CallsStep(words, k);
    if k + 1 < BlockCount(words) {
      CallsFromIs(words, k + 1, if i == k then k + 1 else i);
    }
  }

  /** The block schedule of the loop, for every input and the empty one too. */
  lemma Schedule(words: seq<nat>)
    ensures |CallsFrom(words, 0, 0)| == BlockCount(words)
    ensures forall i :: 0 <= i < BlockCount(words) ==> CallsFrom(words, 0, 0)[i] == CodeCall(words, i)
  {
    CallsFromIs(words, 0, 0);
    forall i | 0 <= i < BlockCount(words) ensures CallsFrom(words, 0, 0)[i] == CodeCall(words, i) {
      CallsFromIs(words, 0, i);
    }
  }

  /** Word `j` of call `i` is word 16 i + j of the stream, or 0 past its end. */
  lemma ScheduledWord(words: seq<nat>, i: nat, j: nat)
    requires i < BlockCount(words) && j < 16
    ensures |CallsFrom(words, 0, 0)| == BlockCount(words) && |CallsFrom(words, 0, 0)[i].block| == 16
    ensures CallsFrom(words, 0, 0)[i].block[j] == if 16 * i + j < |words| then words[16 * i + j] else 0
  {
    CallsFromIs(words, 0, i);
  }

  /** The compression function takes the counter modulo 2^32. */
  function Taken(call: Call): Call {
    call.(t0 := call.t0 % WORD)
  }

  /** A call is the standard one exactly while the counter fits one word. */
  lemma CallIsStandard(words: seq<nat>, i: nat)
    ensures Taken(CodeCall(words, i)) == StandardCall(words, i) <==> Counter(words, i) < WORD
  {}

  /** Main result: the loop makes the calls of the standard exactly on inputs below 2^32 bytes. */
  lemma ScheduleIsStandard(words: seq<nat>)
    ensures |CallsFrom(words, 0, 0)| == BlockCount(words)
    ensures (forall i :: 0 <= i < BlockCount(words) ==> Taken(CallsFrom(words, 0, 0)[i]) == StandardCall(words, i))
      <==> 4 * |words| < WORD
  {
    Schedule(words);
    var last := BlockCount(words) - 1;
    CounterIs(words, last);
    CallIsStandard(words, last);
    if 4 * |words| < WORD {
      forall i | 0 <= i < BlockCount(words) ensures Taken(CallsFrom(words, 0, 0)[i]) == StandardCall(words, i) {
        CounterIs(words, i);
        CallIsStandard(words, i);
      }
    }
  }

  function StandardCalls(words: seq<nat>): seq<Call> {
    seq(BlockCount(words), i requires 0 <= i < BlockCount(words) => StandardCall(words, i))
  }

  lemma SmallCounter(x: nat)
    requires x < WORD
    ensures x % WORD == x && x / WORD == 0
  {}

  lemma CallAlike(words: seq<nat>, i: nat)
    requires 4 * |words| < WORD && i < BlockCount(words)
    ensures CodeCall(words, i) == StandardCall(words, i)
  {
    CounterIs(words, i);
    SmallCounter(Counter(words, i));
  }

  /** Below 2^32 bytes the very arguments are those of the standard. */
  lemma CallsAreStandard(words: seq<nat>)
    requires 4 * |words| < WORD
    ensures CallsFrom(words, 0, 0) == StandardCalls(words)
  {
    Schedule(words);
    var calls := CallsFrom(words, 0, 0);
    forall i | 0 <= i < |calls| ensures calls[i] == StandardCalls(words)[i] { CallAlike(words, i); }
  }

  // ---------------------------------------------------------------------------
  // The digest
  // ---------------------------------------------------------------------------

  function Masked(state: seq<nat>): (r: seq<nat>)
    ensures |r| == |state|
  {
    if state == [] then [] else [state[0] % WORD] + Masked(state[1..])
  }

  lemma {:induction false} ValueAppend(ws: seq<nat>, w: nat)
    ensures Value(ws + [w]) == Value(ws) + PowW(|ws|) * w
  {
    if ws == [] {
      assert [] + [w] == [w] && [w][1..] == [];
    } else {
      assert (ws + [w])[1..] == ws[1..] + [w];
      ValueAppend(ws[1..], w);
      assert WORD * (PowW(|ws| - 1) * w) == (WORD * PowW(|ws| - 1)) * w;
    }
  }

  lemma {:induction false} MaskedAppend(a: seq<nat>, w: nat)
    ensures Masked(a + [w]) == Masked(a) + [w % WORD]
  {
    if a == [] {
      assert [] + [w] == [w] && [w][1..] == [];
    } else {
      assert (a + [w])[1..] == a[1..] + [w];
      MaskedAppend(a[1..], w);
    }
  }

  /** Words of 32 bits are taken as they are. */
  lemma {:induction false} MaskedIs(state: seq<nat>)
    requires forall i :: 0 <= i < |state| ==> state[i] < WORD
    ensures Masked(state) == state
  {
    if state != [] {
      MaskedIs(state[1..]);
      SmallCounter(state[0]);
    }
  }

  /** blake_state_into_felt: the state words as one number, reduced. Or-ing adds, as the words do not overlap. */
  method BlakeStateIntoFelt(state: seq<nat>, prime: int) returns (r: int)
    requires prime > 0
    ensures r == Value(Masked(state)) % prime
    ensures (forall i :: 0 <= i < |state| ==> state[i] < WORD) ==> r == Value(state) % prime
  {
    if forall i :: 0 <= i < |state| ==> state[i] < WORD { MaskedIs(state); }
    var digest := 0;
    for idx := 0 to |state|
      invariant digest == Value(Masked(state[..idx]))
    {
      assert state[..idx + 1] == state[..idx] + [state[idx]];
      MaskedAppend(state[..idx], state[idx]);
      ValueAppend(Masked(state[..idx]), state[idx] % WORD);
      digest := digest + PowW(idx) * (state[idx] % WORD);
    }
    assert state[..|state|] == state;
    return digest % prime;
  }

  /** calculate_blake2s_hash_from_felt252s, for a compression function. */
  method CalculateHash(compress: (seq<nat>, Call) -> seq<nat>, init: seq<nat>, data: seq<int>,
                       encode: bool, littleEndian: bool, prime: int) returns (r: int)
    requires prime > 0
    ensures var words := Encode(data, encode, littleEndian, prime);
      && r == Value(Masked(Fold(compress, init, CallsFrom(words, 0, 0)))) % prime
      && (4 * |words| < WORD ==> r == Value(Masked(Fold(compress, init, StandardCalls(words)))) % prime)
  {
    var words := EncodeWords(data, encode, littleEndian, prime);
    if 4 * |words| < WORD { CallsAreStandard(words); }
    var state := HashWords(compress, init, words);
    r := BlakeStateIntoFelt(state, prime);
  }
}
