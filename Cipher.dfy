/**
 * Cipher generator (src/logic/Cipher.ts).
 *
 * The alphabet is the `numChars` consecutive characters starting at `base`.
 * A cipher is a pair of maps, `encryptor` (plain letter to cipher letter) and
 * `decryptor` (cipher letter to plain letter).
 */
module Cipher {
  import Random

  /** Character codes stay below the surrogate range, so every `base + i` is a character. */
  predicate AlphabetFits(base: char, numChars: nat) {
    base as int + numChars <= 0xD800
  }

  /** `String.fromCharCode(base + i)`. */
  function Letter(base: char, i: int): (c: char)
    requires 0 <= i && base as int + i < 0xD800
    ensures c as int == base as int + i
  {
    (base as int + i) as char
  }

  /** `c` is one of the `numChars` letters starting at `base`. */
  predicate InAlphabet(c: char, base: char, numChars: nat) {
    base as int <= c as int < base as int + numChars
  }

  /** The two maps are exact inverses of each other: a partial bijection. */
  predicate Inverse(encryptor: map<char, char>, decryptor: map<char, char>) {
    && (forall p {:trigger p in encryptor} :: p in encryptor ==> encryptor[p] in decryptor && decryptor[encryptor[p]] == p)
    && (forall c {:trigger c in decryptor} :: c in decryptor ==> decryptor[c] in encryptor && encryptor[decryptor[c]] == c)
  }

  /** No two keys share a value. */
  predicate Injective(m: map<char, char>) {
    forall p, q :: p in m && q in m && p != q ==> m[p] != m[q]
  }

  lemma InverseIsInjective(encryptor: map<char, char>, decryptor: map<char, char>)
    requires Inverse(encryptor, decryptor)
    ensures Injective(encryptor) && Injective(decryptor)
  {
  }

  /** Adding a pair whose two letters are both unused keeps the maps inverse and equally large. */
  lemma InverseExtend(encryptor: map<char, char>, decryptor: map<char, char>, p: char, c: char)
    requires Inverse(encryptor, decryptor) && p !in encryptor && c !in decryptor
    ensures Inverse(encryptor[p := c], decryptor[c := p])
    ensures |encryptor[p := c]| == |encryptor| + 1 && |decryptor[c := p]| == |decryptor| + 1
  {
  }

  /** `[0, 1, ..., n - 1]`, the index array before shuffling. */
  function Iota(n: nat): (s: seq<int>)
    ensures |s| == n && forall i :: 0 <= i < n ==> s[i] == i
  {
    seq(n, i => i)
  }

  predicate Distinct(s: seq<int>) {
    forall i, j :: 0 <= i < j < |s| ==> s[i] != s[j]
  }

  lemma {:induction false} DistinctCountsAtMostOne(s: seq<int>, v: int)
    requires Distinct(s)
    ensures multiset(s)[v] <= 1
  {
    if s != [] {
      assert s == [s[0]] + s[1..];
      assert Distinct(s[1..]);
      DistinctCountsAtMostOne(s[1..], v);
      if s[0] == v {
        assert v !in s[1..];
      }
    }
  }

  lemma RepeatCountsTwice(s: seq<int>, i: nat, j: nat)
    requires i < j < |s| && s[i] == s[j]
    ensures multiset(s)[s[i]] >= 2
  {
    assert s == s[..i] + [s[i]] + s[i+1..j] + [s[j]] + s[j+1..];
  }

  /** A rearrangement of `[0, n)` holds each of `0 .. n-1` exactly once. */
  lemma PermutationOfIota(p: seq<int>, n: nat)
    requires multiset(p) == multiset(Iota(n))
    ensures |p| == n && Distinct(p)
    ensures forall i :: 0 <= i < |p| ==> 0 <= p[i] < n
  {
    assert |p| == |multiset(p)| == |multiset(Iota(n))| == n;
    forall i | 0 <= i < |p| ensures 0 <= p[i] < n {
      assert p[i] in multiset(Iota(n));
    }
    forall i, j | 0 <= i < j < |p| ensures p[i] != p[j] {
      if p[i] == p[j] {
        RepeatCountsTwice(p, i, j);
        assert Distinct(Iota(n));
        DistinctCountsAtMostOne(Iota(n), p[i]);
        assert false;
      }
    }
  }

  /**
   * The maps after the loop of `createCipher` has handled the alphabet positions
   * `0 .. i-1` of the shuffled index array `perm`.
   */
  ghost predicate FilledUpTo(plaintext: string, base: char, perm: seq<int>, i: nat,
                             encryptor: map<char, char>, decryptor: map<char, char>)
    requires i <= |perm|
  {
    && (forall c {:trigger c in encryptor} :: c in encryptor <==> InAlphabet(c, base, i) && c in plaintext)
    && (forall c {:trigger c in encryptor} :: c in encryptor ==>
          encryptor[c] as int - base as int == perm[c as int - base as int])
    && Inverse(encryptor, decryptor)
    && |encryptor| == |decryptor|
  }

  /** One iteration of the loop of `createCipher` keeps `FilledUpTo`. */
  lemma FillStep(plaintext: string, base: char, perm: seq<int>, i: nat,
                 encryptor: map<char, char>, decryptor: map<char, char>)
    requires AlphabetFits(base, |perm|) && Distinct(perm)
    requires forall k :: 0 <= k < |perm| ==> 0 <= perm[k] < |perm|
    requires i < |perm| && FilledUpTo(plaintext, base, perm, i, encryptor, decryptor)
    ensures Letter(base, i) !in plaintext ==> FilledUpTo(plaintext, base, perm, i + 1, encryptor, decryptor)
    ensures Letter(base, i) in plaintext ==>
      var p, c := Letter(base, i), Letter(base, perm[i]);
      FilledUpTo(plaintext, base, perm, i + 1, encryptor[p := c], decryptor[c := p])
  {
    var p, c := Letter(base, i), Letter(base, perm[i]);
    if p in plaintext {
      assert p !in encryptor;
      forall q {:trigger q in encryptor} | q in encryptor ensures encryptor[q] != c {
        assert perm[q as int - base as int] != perm[i];
      }
      assert c !in decryptor;
      InverseExtend(encryptor, decryptor, p, c);
      var e := encryptor[p := c];
      forall x {:trigger x in e} ensures x in e <==> InAlphabet(x, base, i + 1) && x in plaintext {
        if x as int == base as int + i { assert x == p; }
      }
    } else {
      forall x {:trigger x in encryptor} ensures x in encryptor <==> InAlphabet(x, base, i + 1) && x in plaintext {
        if x as int == base as int + i { assert x == p; }
      }
    }
  }

  /**
   * `createCipher`: shuffle the index array `[0, numChars)` with `draws`, then for
   * every alphabet position `i` whose letter occurs in `plaintext`, map that letter
   * to the letter at position `arr[i]`, and record the inverse pair.
   */
  method CreateCipher(plaintext: string, base: char, numChars: nat, draws: seq<int>)
    returns (encryptor: map<char, char>, decryptor: map<char, char>)
    requires AlphabetFits(base, numChars)
    requires Random.ValidDraws(draws, numChars)
    // keys: exactly the alphabet letters occurring in the plaintext
    ensures forall c {:trigger c in encryptor} :: c in encryptor <==> InAlphabet(c, base, numChars) && c in plaintext
    // the cipher letter of a key sits at the key's position in the shuffled index array
    ensures forall c {:trigger c in encryptor} :: c in encryptor ==>
      var k := c as int - base as int;
      0 <= k < numChars && encryptor[c] as int - base as int == Random.Shuffled(Iota(numChars), draws)[k]
    ensures forall c {:trigger c in encryptor} :: c in encryptor ==> InAlphabet(encryptor[c], base, numChars)
    ensures Inverse(encryptor, decryptor)
    ensures Injective(encryptor)
    ensures |encryptor| == |decryptor|
    ensures (forall c :: c in plaintext ==> !InAlphabet(c, base, numChars)) ==> encryptor == map[] && decryptor == map[]
  {
    var arr := new int[numChars](i => i);
    assert arr[..] == Iota(numChars);
    Random.ShuffleInPlace(arr, draws);
    var perm := arr[..];
    assert perm == Random.Shuffled(Iota(numChars), draws);
    PermutationOfIota(perm, numChars);

    encryptor, decryptor := map[], map[];
    for i := 0 to numChars
      invariant FilledUpTo(plaintext, base, perm, i, encryptor, decryptor)
    {
      FillStep(plaintext, base, perm, i, encryptor, decryptor);
      var plainChar := Letter(base, i);
      if plainChar in plaintext {
        var cipherChar := Letter(base, perm[i]);
        encryptor := encryptor[plainChar := cipherChar];
        decryptor := decryptor[cipherChar := plainChar];
      }
    }
    FilledAll(plaintext, base, perm, encryptor, decryptor);
  }

  /** What `FilledUpTo` says once every letter of the alphabet is done. */
  lemma FilledAll(plaintext: string, base: char, perm: seq<int>, encryptor: map<char, char>, decryptor: map<char, char>)
    requires AlphabetFits(base, |perm|) && forall k :: 0 <= k < |perm| ==> 0 <= perm[k] < |perm|
    requires FilledUpTo(plaintext, base, perm, |perm|, encryptor, decryptor)
    ensures forall c {:trigger c in encryptor} :: c in encryptor ==> InAlphabet(encryptor[c], base, |perm|)
    ensures Injective(encryptor)
    ensures (forall c :: c in plaintext ==> !InAlphabet(c, base, |perm|)) ==> encryptor == map[] && decryptor == map[]
  {
    InverseIsInjective(encryptor, decryptor);
    if forall c :: c in plaintext ==> !InAlphabet(c, base, |perm|) {
      assert encryptor.Keys == {};
      assert |decryptor| == 0;
    }
  }
}
