/** The RC4 stream cipher of Assignment4/rc4.c: the key-scheduling algorithm
    (KSA) permutes a 256-byte state, the pseudo-random generation algorithm
    (PRGA) keeps permuting it and emits one keystream byte per data byte, and
    `rc4_crypt` XORs that keystream into the caller's output buffer. The
    functions are the specification; the method `Rc4Crypt` is the C routine,
    working in place on its arrays. */
module Rc4Cipher {
  import opened Common
  import opened ModArith

  /** The state `S[i] = i` that the first loop of rc4_crypt writes. */
  function Identity(): seq<byte>
  {
    seq(256, (k: int) requires 0 <= k < 256 => k as byte)
  }

  /** `s` holds every byte value exactly once. */
  predicate IsPermutation(s: seq<byte>)
  {
    |s| == 256 && forall v :: 0 <= v < 256 ==> multiset(s)[v] == 1
  }

  /** The exchange of `S[i]` and `S[j]` through `temp`. */
  function Swap(s: seq<byte>, i: int, j: int): (t: seq<byte>)
    requires 0 <= i < |s| && 0 <= j < |s|
  {
    s[i := s[j]][j := s[i]]
  }

  /** A swap puts `s[j]` at `i` and `s[i]` at `j`, and leaves every other
      entry alone. */
  lemma SwapEffect(s: seq<byte>, i: int, j: int)
    requires 0 <= i < |s| && 0 <= j < |s|
    ensures var t := Swap(s, i, j);
            |t| == |s| && t[i] == s[j] && t[j] == s[i] &&
            forall k :: 0 <= k < |s| && k != i && k != j ==> t[k] == s[k]
  {
  }

  lemma {:induction false} IdentityPrefixCounts(k: nat)
    requires k <= 256
    ensures forall v :: 0 <= v < 256 ==> multiset(Identity()[..k])[v] == if v < k then 1 else 0
    decreases k
  {
    if k > 0 {
      IdentityPrefixCounts(k - 1);
      assert Identity()[..k] == Identity()[..k - 1] + [k - 1];
    }
  }

  /** The initial state is a permutation. */
  lemma IdentityIsPermutation()
    ensures IsPermutation(Identity())
  {
    IdentityPrefixCounts(256);
    assert Identity()[..256] == Identity();
  }

  lemma SwapKeepsMultiset(s: seq<byte>, i: int, j: int)
    requires 0 <= i < |s| && 0 <= j < |s|
    ensures multiset(Swap(s, i, j)) == multiset(s)
  {
    var t := s[i := s[j]];
    assert multiset(t) == multiset(s) - multiset{s[i]} + multiset{s[j]};
  }

  // ---------------------------------------------------------------------------
  // KSA

  /** The key-scheduling loop from step `i` on, with index `j`: step `i` sets
      `j = (j + S[i] + key[i % key_len]) % 256` and swaps `S[i]` with `S[j]`. */
  function KsaFrom(s: seq<byte>, key: seq<byte>, i: nat, j: int): (t: seq<byte>)
    requires |s| == 256 && |key| > 0 && i <= 256 && 0 <= j < 256
    ensures |t| == 256
    decreases |s| - i
  {
    if i == |s| then s
    else
      var j' := (j + s[i] + key[i % |key|]) % 256;
      KsaFrom(Swap(s, i, j'), key, i + 1, j')
  }

  lemma KsaFromStep(s: seq<byte>, key: seq<byte>, i: nat, j: int, j': int, t: seq<byte>)
    requires |s| == 256 && |key| > 0 && i < 256 && 0 <= j < 256
    requires j' == (j + s[i] as int + key[i % |key|] as int) % 256
    requires t == Swap(s, i, j')
    ensures KsaFrom(s, key, i, j) == KsaFrom(t, key, i + 1, j')
  {
  }

  /** The state after key scheduling with `key`. */
  function Ksa(key: seq<byte>): (s: seq<byte>)
    requires |key| > 0
    ensures |s| == 256
  {
    KsaFrom(Identity(), key, 0, 0)
  }

  lemma {:induction false} KsaFromKeepsMultiset(s: seq<byte>, key: seq<byte>, i: nat, j: int)
    requires |s| == 256 && |key| > 0 && i <= 256 && 0 <= j < 256
    ensures multiset(KsaFrom(s, key, i, j)) == multiset(s)
    decreases |s| - i
  {
    if i < 256 {
      var j' := (j + s[i] + key[i % |key|]) % 256;
      SwapKeepsMultiset(s, i, j');
      KsaFromKeepsMultiset(Swap(s, i, j'), key, i + 1, j');
    }
  }

  /** After key scheduling, S is a permutation of 0..255, whatever the key. */
  lemma KsaIsPermutation(key: seq<byte>)
    requires |key| > 0
    ensures IsPermutation(Ksa(key))
  {
    IdentityIsPermutation();
    KsaFromKeepsMultiset(Identity(), key, 0, 0);
  }

  // ---------------------------------------------------------------------------
  // PRGA

  datatype PrgaState = PrgaState(s: seq<byte>, i: int, j: int)

  predicate ValidState(st: PrgaState)
  {
    |st.s| == 256 && 0 <= st.i < 256 && 0 <= st.j < 256
  }

  /** One PRGA step: advance `i`, move `j` by `S[i]`, swap, and output
      `S[(S[i] + S[j]) % 256]`. */
  function Step(st: PrgaState): (PrgaState, byte)
    requires ValidState(st)
  {
    var i := (st.i + 1) % 256;
    var j := (st.j + st.s[i]) % 256;
    var s := Swap(st.s, i, j);
    (PrgaState(s, i, j), s[(s[i] as int + s[j] as int) % 256])
  }

  /** The next `count` keystream bytes from state `st`. */
  function Prga(st: PrgaState, count: nat): (ks: seq<byte>)
    requires ValidState(st)
    ensures |ks| == count
    decreases count
  {
    if count == 0 then []
    else [Step(st).1] + Prga(Step(st).0, count - 1)
  }

  /** The state after `count` PRGA steps. */
  function PrgaAfter(st: PrgaState, count: nat): (st': PrgaState)
    requires ValidState(st)
    ensures ValidState(st')
    decreases count
  {
    if count == 0 then st else PrgaAfter(Step(st).0, count - 1)
  }

  /** One more step after `n` steps is step `n + 1`. */
  lemma {:induction false} PrgaAfterStep(st: PrgaState, n: nat)
    requires ValidState(st)
    ensures PrgaAfter(st, n + 1) == Step(PrgaAfter(st, n)).0
    decreases n
  {
    if n > 0 {
      PrgaAfterStep(Step(st).0, n - 1);
    }
  }

  /** Keystream byte `n` is the output of the step taken after `n` steps. */
  lemma {:induction false} PrgaAt(st: PrgaState, n: nat, count: nat)
    requires ValidState(st) && n < count
    ensures Prga(st, count)[n] == Step(PrgaAfter(st, n)).1
    decreases n
  {
    var next, k := Step(st).0, Step(st).1;
    var rest := Prga(next, count - 1);
    assert Prga(st, count) == [k] + rest;
    if n == 0 {
      assert PrgaAfter(st, 0) == st;
    } else {
      assert PrgaAfter(st, n) == PrgaAfter(next, n - 1);
      PrgaAt(next, n - 1, count - 1);
      assert Prga(st, count)[n] == rest[n - 1];
    }
  }

  /** The first `len` keystream bytes for `key`. */
  function Keystream(key: seq<byte>, len: nat): seq<byte>
    requires |key| > 0
  {
    Prga(PrgaState(Ksa(key), 0, 0), len)
  }

  function XorBytes(a: seq<byte>, b: seq<byte>): (c: seq<byte>)
    requires |a| == |b|
  {
    seq(|a|, k requires 0 <= k < |a| => Xor(a[k], b[k]))
  }

  /** What rc4_crypt writes into `output[0..data_len)`. */
  function Crypt(key: seq<byte>, data: seq<byte>): seq<byte>
    requires |key| > 0
  {
    XorBytes(data, Keystream(key, |data|))
  }

  /** Each PRGA step keeps `i` and `j` in `[0, 255]` and `S` a permutation. */
  lemma {:induction false} PrgaKeepsPermutation(st: PrgaState, count: nat)
    requires ValidState(st) && IsPermutation(st.s)
    ensures IsPermutation(PrgaAfter(st, count).s)
    decreases count
  {
    if count > 0 {
      var next := Step(st).0;
      SwapKeepsMultiset(st.s, next.i, next.j);
      assert multiset(next.s) == multiset(st.s);
      PrgaKeepsPermutation(next, count - 1);
    }
  }

  /** Asking for fewer bytes gives a prefix of the longer keystream. */
  lemma {:induction false} PrgaPrefix(st: PrgaState, m: nat, n: nat)
    requires ValidState(st) && m <= n
    ensures |Prga(st, n)| == n && Prga(st, m) == Prga(st, n)[..m]
    decreases m
  {
    if m > 0 {
      PrgaPrefix(Step(st).0, m - 1, n - 1);
    }
  }

  /** The keystream depends only on the key and the position: byte `k` is the
      same however long the data is, and no data enters it. */
  lemma KeystreamPrefix(key: seq<byte>, m: nat, n: nat)
    requires |key| > 0 && m <= n
    ensures |Keystream(key, n)| == n
    ensures Keystream(key, m) == Keystream(key, n)[..m]
  {
    PrgaPrefix(PrgaState(Ksa(key), 0, 0), m, n);
  }

  /** `output[n] = data[n] ^ keystream[n]`, and the output is as long as the data. */
  lemma CryptAt(key: seq<byte>, data: seq<byte>, n: nat)
    requires |key| > 0 && n < |data|
    ensures |Crypt(key, data)| == |data|
    ensures Crypt(key, data)[n] == Xor(data[n], Keystream(key, |data|)[n])
  {
  }

  /** Encrypting twice with one key gives the data back: the same routine
      serves for encryption and decryption. */
  lemma CryptInvolution(key: seq<byte>, data: seq<byte>)
    requires |key| > 0
    ensures Crypt(key, Crypt(key, data)) == data
  {
    var ks := Keystream(key, |data|);
    var c := Crypt(key, data);
    forall k | 0 <= k < |data|
      ensures Crypt(key, c)[k] == data[k]
    {
      XorTwice(data[k], ks[k]);
    }
  }

  // ---------------------------------------------------------------------------
  // rc4_crypt

  /** The first loop of rc4_crypt: `S[i] = i` for every `i`. */
  method InitState(S: array<byte>)
    requires S.Length == 256
    modifies S
    ensures S[..] == Identity()
  {
    var i := 0;
    while i < 256
      invariant 0 <= i <= 256
      invariant forall k :: 0 <= k < i ==> S[k] == k
    {
      S[i] := i;
      i := i + 1;
    }
  }

  /** For a non-negative dividend, the remainder by `k` is the remainder by
      `|k|`: C's `%` takes the sign of the dividend, Dafny's is never negative,
      and both agree here. So `key[i % key_len]` with a negative `key_len`
      reads the first `-key_len` bytes of the key. */
  lemma RemOfNegativeDivisor(i: nat, k: int)
    requires k != 0
    ensures i % k == i % Abs(k) && 0 <= i % k < Abs(k)
  {
    if k < 0 {
      var q := i / k;
      assert k * q == Abs(k) * (-q);
      ModUnique(i, Abs(k), -q, i % k);
    }
  }

  /** The second loop of rc4_crypt: key scheduling on `S` in place, `i` from 0
      to 255, `j` starting at 0. */
  method ScheduleKey(S: array<byte>, key: array<byte>, keyLen: int)
    requires S.Length == 256 && keyLen != 0 && Abs(keyLen) <= key.Length && S != key
    modifies S
    ensures S[..] == KsaFrom(old(S[..]), key[..Abs(keyLen)], 0, 0)
  {
    ghost var kseq := key[..Abs(keyLen)];
    ghost var target := KsaFrom(S[..], kseq, 0, 0);
    var j := 0;
    var i := 0;
    while i < 256
      invariant 0 <= i <= 256 && 0 <= j < 256
      invariant KsaFrom(S[..], kseq, i, j) == target
    {
      ghost var before := S[..];
      ghost var j0 := j;
      RemOfNegativeDivisor(i, keyLen);
      assert key[i % keyLen] == kseq[i % |kseq|];
      j := (j + S[i] as int + key[i % keyLen] as int) % 256;
      assert j == (j0 + before[i] as int + kseq[i % |kseq|] as int) % 256;
      var temp := S[i];
      S[i] := S[j];
      S[j] := temp;
      assert S[..] == Swap(before, i, j);
      KsaFromStep(before, kseq, i, j0, j, S[..]);
      i := i + 1;
    }
  }

  lemma StepIs(st: PrgaState, next: PrgaState, k: byte)
    requires ValidState(st) && |next.s| == 256
    requires next.i == (st.i + 1) % 256 && next.j == (st.j + st.s[next.i]) % 256
    requires next.s == Swap(st.s, next.i, next.j)
    requires k == next.s[(next.s[next.i] as int + next.s[next.j] as int) % 256]
    ensures Step(st) == (next, k)
  {
  }

  /** One pass of the third loop of rc4_crypt, on `S` in place: returns the
      new `i`, `j` and the keystream byte `K`. */
  method NextByte(S: array<byte>, i0: int, j0: int) returns (i: int, j: int, k: byte)
    requires S.Length == 256 && 0 <= i0 < 256 && 0 <= j0 < 256
    modifies S
    ensures Step(PrgaState(old(S[..]), i0, j0)) == (PrgaState(S[..], i, j), k)
  {
    ghost var st := PrgaState(S[..], i0, j0);
    i := (i0 + 1) % 256;
    j := (j0 + S[i] as int) % 256;
    var temp := S[i];
    S[i] := S[j];
    S[j] := temp;
    assert S[..] == Swap(st.s, i, j);
    k := S[(S[i] as int + S[j] as int) % 256];
    StepIs(st, PrgaState(S[..], i, j), k);
  }

  /** `n` bytes written one by one as `data[t] ^ ks[t]` make up `XorBytes`. */
  lemma XorBytesPrefix(out: seq<byte>, data: seq<byte>, ks: seq<byte>, n: nat)
    requires n <= |out| && n <= |data| && |ks| == n
    requires forall t :: 0 <= t < n ==> out[t] == Xor(data[t], ks[t])
    ensures out[..n] == XorBytes(data[..n], ks)
  {
  }

  /** One pass of the third loop of rc4_crypt together with its write,
      `output[n] = data[n] ^ K`: keystream byte `n` comes from the state after
      `n` steps, and the state moves on by one step. */
  method EmitByte(S: array<byte>, data: array<byte>, output: array<byte>, n: int, i0: int, j0: int,
                  ghost st0: PrgaState, ghost len: nat)
      returns (i: int, j: int)
    requires S.Length == 256 && S != output && S != data && output != data
    requires ValidState(st0) && 0 <= n < len && n < data.Length && n < output.Length
    requires 0 <= i0 < 256 && 0 <= j0 < 256 && PrgaState(S[..], i0, j0) == PrgaAfter(st0, n)
    modifies S, output
    ensures 0 <= i < 256 && 0 <= j < 256 && PrgaState(S[..], i, j) == PrgaAfter(st0, n + 1)
    ensures output[n] == Xor(data[n], Prga(st0, len)[n])
    ensures forall t :: 0 <= t < output.Length && t != n ==> output[t] == old(output[t])
  {
    var k;
    i, j, k := NextByte(S, i0, j0);
    PrgaAfterStep(st0, n);
    PrgaAt(st0, n, len);
    output[n] := Xor(data[n], k);
  }

  /** The third loop of rc4_crypt: PRGA from `i = j = 0` on `S`, XORing one
      keystream byte into `output[n]` for each `n < data_len`. */
  method GenerateInto(S: array<byte>, data: array<byte>, dataLen: int, output: array<byte>)
    requires S.Length == 256 && dataLen <= data.Length && dataLen <= output.Length
    requires S != output && S != data && output != data
    modifies S, output
    ensures var ks := Prga(PrgaState(old(S[..]), 0, 0), if dataLen > 0 then dataLen else 0);
            forall t :: 0 <= t < dataLen ==> output[t] == Xor(data[t], ks[t])
    ensures forall t :: 0 <= t < output.Length && t >= dataLen ==> output[t] == old(output[t])
  {
    ghost var len: nat := if dataLen > 0 then dataLen else 0;
    ghost var st0 := PrgaState(S[..], 0, 0);
    ghost var ks := Prga(st0, len);
    var i := 0;
    var j := 0;
    var n := 0;
    while n < dataLen
      invariant 0 <= n <= len
      invariant 0 <= i < 256 && 0 <= j < 256
      invariant PrgaState(S[..], i, j) == PrgaAfter(st0, n)
      invariant forall t {:trigger output[t]} :: 0 <= t < n ==> output[t] == Xor(data[t], ks[t])
      invariant forall t :: n <= t < output.Length ==> output[t] == old(output[t])
    {
      i, j := EmitByte(S, data, output, n, i, j, st0, len);
      n := n + 1;
    }
  }

  /** `void rc4_crypt(data, data_len, key, key_len, output)`. The caller passes
      three separately allocated buffers; a zero key length would divide by zero
      and is excluded; a negative one reads the first `-key_len` key bytes.
      Only `output[0..data_len)` is written. */
  method Rc4Crypt(data: array<byte>, dataLen: int, key: array<byte>, keyLen: int, output: array<byte>)
    requires keyLen != 0 && Abs(keyLen) <= key.Length
    requires dataLen <= data.Length && dataLen <= output.Length
    requires output != data && output != key
    modifies output
    ensures dataLen > 0 ==> output[..dataLen] == Crypt(key[..Abs(keyLen)], data[..dataLen])
    ensures forall t :: 0 <= t < output.Length && t >= dataLen ==> output[t] == old(output[t])
    ensures data[..] == old(data[..]) && key[..] == old(key[..])
  {
    var S := new byte[256];
    InitState(S);
    ScheduleKey(S, key, keyLen);
    GenerateInto(S, data, dataLen, output);
    if dataLen > 0 {
      XorBytesPrefix(output[..], data[..], Keystream(key[..Abs(keyLen)], dataLen), dataLen);
    }
  }
}
