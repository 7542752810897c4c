/** The keyed monoalphabetic substitution cipher of src/cipher/substitution_cipher.rs.
    The cipher owns a fixed alphabet of the 62 ASCII letters and digits; a key is
    a sequence of 62 bytes, and a byte at alphabet position `p` is replaced by
    `key[p]`, while a byte outside the alphabet is copied unchanged. Decryption
    builds a reverse key and substitutes with it. */
module SubstitutionCipher {
  import opened Prelude
  import opened Cipher

  // ---------------------------------------------------------------------------
  // new: the alphabet
  // ---------------------------------------------------------------------------

  /** An ASCII letter or digit (`u8::is_ascii_alphanumeric`). */
  predicate IsAsciiAlphanumeric(x: u8) {
    'A' as u8 <= x <= 'Z' as u8 || 'a' as u8 <= x <= 'z' as u8 || '0' as u8 <= x <= '9' as u8
  }

  /** The bytes `lo ..= hi`, in ascending order. */
  function ByteRange(lo: u8, hi: u8): (r: seq<u8>)
    requires lo <= hi
    ensures |r| == hi as int - lo as int + 1
    ensures forall i :: 0 <= i < |r| ==> r[i] as int == lo as int + i
  {
    seq(hi as int - lo as int + 1, i requires 0 <= i < hi as int - lo as int + 1 => (lo as int + i) as u8)
  }

  /** The alphabet `new` builds: `'A'..='Z'`, then `'a'..='z'`, then `'0'..='9'`. */
  function Alphabet(): (a: seq<u8>)
    ensures |a| == 62
    ensures forall p, q :: 0 <= p < q < |a| ==> a[p] != a[q]
    ensures forall x :: x in a <==> IsAsciiAlphanumeric(x)
  {
    var upper, lower, digits := ByteRange('A' as u8, 'Z' as u8), ByteRange('a' as u8, 'z' as u8), ByteRange('0' as u8, '9' as u8);
    var a := upper + lower + digits;
    assert forall x :: IsAsciiAlphanumeric(x) ==> x in a by {
      forall x | IsAsciiAlphanumeric(x) ensures x in a {
        if x <= '9' as u8 {
          assert a[52 + (x as int - '0' as int)] == x;
        } else if x <= 'Z' as u8 {
          assert a[x as int - 'A' as int] == x;
        } else {
          assert a[26 + (x as int - 'a' as int)] == x;
        }
      }
    }
    a
  }

  /** The first position of `x` in `s` (`iter().position(|&y| y == x)`). */
  function IndexIn(s: seq<u8>, x: u8): (r: Option<nat>)
    ensures r.None? <==> x !in s
    ensures r.Some? ==> r.value < |s| && s[r.value] == x && forall k :: 0 <= k < r.value ==> s[k] != x
  {
    if s == [] then None
    else if s[0] == x then Some(0)
    else
      match IndexIn(s[1..], x)
      case None => None
      case Some(k) => Some(k + 1)
  }

  /** The alphabet position of `x`, if `x` is a letter or digit. */
  function Position(x: u8): (r: Option<nat>)
    ensures r.Some? <==> IsAsciiAlphanumeric(x)
    ensures r.Some? ==> r.value < |Alphabet()| && Alphabet()[r.value] == x
  {
    IndexIn(Alphabet(), x)
  }

  /** Every alphabet byte is found at its own position. */
  lemma PositionOfAlphabet(p: nat)
    requires p < |Alphabet()|
    ensures Position(Alphabet()[p]) == Some(p)
  {
  }

  /** The alphabet byte at each position: upper-case letters first, then
      lower-case, then digits. */
  lemma AlphabetAt(p: nat)
    requires p < |Alphabet()|
    ensures Alphabet()[p] as int == if p < 26 then 'A' as int + p else if p < 52 then 'a' as int + (p - 26) else '0' as int + (p - 52)
  {
  }

  /** Positions by arithmetic. */
  lemma PositionFormula(x: u8)
    ensures 'A' as u8 <= x <= 'Z' as u8 ==> Position(x) == Some(x as int - 'A' as int)
    ensures 'a' as u8 <= x <= 'z' as u8 ==> Position(x) == Some(26 + (x as int - 'a' as int))
    ensures '0' as u8 <= x <= '9' as u8 ==> Position(x) == Some(52 + (x as int - '0' as int))
  {
    var p: nat :=
      if 'A' as u8 <= x <= 'Z' as u8 then x as int - 'A' as int
      else if 'a' as u8 <= x <= 'z' as u8 then 26 + (x as int - 'a' as int)
      else if '0' as u8 <= x <= '9' as u8 then 52 + (x as int - '0' as int)
      else 0;
    AlphabetAt(p);
    PositionOfAlphabet(p);
  }

  // ---------------------------------------------------------------------------
  // substitute
  // ---------------------------------------------------------------------------

  /** `substitute` indexes `key[position]` for every letter or digit of `text`;
      this holds when no such index is out of bounds. */
  predicate KeyCovers(text: seq<u8>, key: seq<u8>) {
    forall i :: 0 <= i < |text| && Position(text[i]).Some? ==> Position(text[i]).value < |key|
  }

  /** What `substitute` returns: each letter or digit replaced by the key byte at
      its alphabet position, every other byte unchanged. */
  function Substitution(text: seq<u8>, key: seq<u8>): (r: seq<u8>)
    requires KeyCovers(text, key)
    ensures |r| == |text|
    ensures forall i :: 0 <= i < |text| && !IsAsciiAlphanumeric(text[i]) ==> r[i] == text[i]
    ensures forall i :: 0 <= i < |text| && IsAsciiAlphanumeric(text[i]) ==> r[i] == key[Position(text[i]).value]
  {
    seq(|text|, i requires 0 <= i < |text| =>
      match Position(text[i])
      case Some(p) => key[p]
      case None => text[i])
  }

  /** A key of the alphabet's length covers every text. */
  lemma FullKeyCovers(text: seq<u8>, key: seq<u8>)
    requires |key| == |Alphabet()|
    ensures KeyCovers(text, key)
  {
  }

  /** `substitute`: push one output byte per input byte. */
  method Substitute(text: seq<u8>, key: seq<u8>) returns (result: seq<u8>)
    requires KeyCovers(text, key)
    ensures result == Substitution(text, key)
  {
    result := [];
    var n := 0;
    while n < |text|
      invariant 0 <= n <= |text| && |result| == n
      invariant forall i :: 0 <= i < n ==> result[i] == Substitution(text, key)[i]
    {
      var ch := text[n];
      var position := Position(ch);
      if position.Some? {
        result := result + [key[position.value]];
      } else {
        result := result + [ch];
      }
      n := n + 1;
    }
  }

  // ---------------------------------------------------------------------------
  // encrypt and decrypt
  // ---------------------------------------------------------------------------

  /** `encrypt`: refuse a key whose length is not the alphabet's, then substitute. */
  method Encrypt(plain: seq<u8>, key: seq<u8>) returns (r: Result<seq<u8>, CipherOperationError>)
    ensures |key| != |Alphabet()| ==> r == Err(InvalidKeySize(|key|))
    ensures |key| == |Alphabet()| ==> KeyCovers(plain, key) && r == Ok(Substitution(plain, key))
  {
    if |key| != |Alphabet()| {
      return Err(InvalidKeySize(|key|));
    }
    FullKeyCovers(plain, key);
    var encrypted := Substitute(plain, key);
    r := Ok(encrypted);
  }

  /** The reverse key after the first `m` steps of `decrypt`'s loop: all zeros,
      then for each `i < m` whose key byte is a letter or digit, slot
      `Position(key[i])` set to `Alphabet()[i]`. */
  function ReverseKeyPrefix(key: seq<u8>, m: nat): (rk: seq<u8>)
    requires |key| == |Alphabet()| && m <= |key|
    ensures |rk| == |key|
  {
    if m == 0 then seq(|key|, _ => 0)
    else
      var rk := ReverseKeyPrefix(key, m - 1);
      match Position(key[m - 1])
      case Some(p) => rk[p := Alphabet()[m - 1]]
      case None => rk
  }

  /** The reverse key `decrypt` builds from the whole key. */
  function ReverseKey(key: seq<u8>): (rk: seq<u8>)
    requires |key| == |Alphabet()|
    ensures |rk| == |Alphabet()|
  {
    ReverseKeyPrefix(key, |key|)
  }

  /** After `m` steps, a slot that none of the first `m` key bytes names is still 0. */
  lemma {:induction false} ReverseKeyPrefixUnset(key: seq<u8>, m: nat, p: nat)
    requires |key| == |Alphabet()| && m <= |key| && p < |Alphabet()|
    requires forall i :: 0 <= i < m ==> key[i] != Alphabet()[p]
    ensures ReverseKeyPrefix(key, m)[p] == 0
  {
    if m > 0 {
      ReverseKeyPrefixUnset(key, m - 1, p);
    }
  }

  /** After `m` steps, a slot holds the alphabet byte at the position of the last
      of the first `m` key bytes that names it: a later duplicate overwrites an
      earlier one. */
  lemma {:induction false} ReverseKeyPrefixLast(key: seq<u8>, m: nat, p: nat, i: nat)
    requires |key| == |Alphabet()| && i < m <= |key| && p < |Alphabet()|
    requires key[i] == Alphabet()[p] && forall k :: i < k < m ==> key[k] != Alphabet()[p]
    ensures ReverseKeyPrefix(key, m)[p] == Alphabet()[i]
  {
    if m - 1 == i {
      PositionOfAlphabet(p);
    } else {
      ReverseKeyPrefixLast(key, m - 1, p, i);
    }
  }

  /** The reverse key, slot by slot: slot `p` is 0 when no key byte is
      `Alphabet()[p]`, and otherwise `Alphabet()[i]` for the last `i` with
      `key[i] == Alphabet()[p]`. */
  lemma ReverseKeyAt(key: seq<u8>, p: nat)
    requires |key| == |Alphabet()| && p < |Alphabet()|
    ensures (forall i :: 0 <= i < |key| ==> key[i] != Alphabet()[p]) ==> ReverseKey(key)[p] == 0
    ensures forall i :: 0 <= i < |key| && key[i] == Alphabet()[p] && (forall k :: i < k < |key| ==> key[k] != Alphabet()[p]) ==>
              ReverseKey(key)[p] == Alphabet()[i]
  {
    if forall i :: 0 <= i < |key| ==> key[i] != Alphabet()[p] {
      ReverseKeyPrefixUnset(key, |key|, p);
    }
    forall i | 0 <= i < |key| && key[i] == Alphabet()[p] && (forall k :: i < k < |key| ==> key[k] != Alphabet()[p])
      ensures ReverseKey(key)[p] == Alphabet()[i]
    {
      ReverseKeyPrefixLast(key, |key|, p, i);
    }
  }

  /** The reverse-key loop of `decrypt`: a zeroed array of the key's length; for
      each key byte that is a letter or digit, the slot at its alphabet position
      gets the alphabet byte at the key byte's own index. */
  method BuildReverseKey(key: seq<u8>) returns (rk: seq<u8>)
    requires |key| == |Alphabet()|
    ensures rk == ReverseKey(key)
  {
    var alphabet := Alphabet();
    var reverseKey := new u8[|key|](_ => 0);
    var i := 0;
    while i < |key|
      invariant 0 <= i <= |key| && reverseKey[..] == ReverseKeyPrefix(key, i)
    {
      var position := Position(key[i]);
      if position.Some? {
        assert ReverseKeyPrefix(key, i + 1) == reverseKey[..][position.value := alphabet[i]];
        reverseKey[position.value] := alphabet[i];
      } else {
        assert ReverseKeyPrefix(key, i + 1) == reverseKey[..];
      }
      i := i + 1;
    }
    rk := reverseKey[..];
  }

  /** `decrypt`: refuse a key whose length is not the alphabet's, fill a zeroed
      reverse key of the key's length, then substitute with it. */
  method Decrypt(encrypted: seq<u8>, key: seq<u8>) returns (r: Result<seq<u8>, CipherOperationError>)
    ensures |key| != |Alphabet()| ==> r == Err(InvalidKeySize(|key|))
    ensures |key| == |Alphabet()| ==> KeyCovers(encrypted, ReverseKey(key)) && r == Ok(Substitution(encrypted, ReverseKey(key)))
  {
    if |key| != |Alphabet()| {
      return Err(InvalidKeySize(|key|));
    }
    var reverseKey := BuildReverseKey(key);
    FullKeyCovers(encrypted, reverseKey);
    var decrypted := Substitute(encrypted, reverseKey);
    r := Ok(decrypted);
  }

  // ---------------------------------------------------------------------------
  // round trip
  // ---------------------------------------------------------------------------

  /** `key` lists every alphabet byte exactly once. */
  predicate IsAlphabetPermutation(key: seq<u8>) {
    |key| == |Alphabet()| &&
    (forall i :: 0 <= i < |key| ==> IsAsciiAlphanumeric(key[i])) &&
    (forall i, k :: 0 <= i < k < |key| ==> key[i] != key[k])
  }

  /** With a permutation of the alphabet as key, the reverse key maps every
      encrypted letter or digit back. */
  lemma ReverseKeyInverts(key: seq<u8>, p: nat)
    requires IsAlphabetPermutation(key) && p < |key|
    ensures Position(key[p]).Some? && ReverseKey(key)[Position(key[p]).value] == Alphabet()[p]
  {
    var q := Position(key[p]).value;
    ReverseKeyAt(key, q);
  }

  /** decrypt(encrypt(P, K), K) == P for every P, when K is a permutation of the alphabet. */
  lemma SubstitutionRoundTrip(plain: seq<u8>, key: seq<u8>)
    requires IsAlphabetPermutation(key)
    ensures KeyCovers(plain, key)
    ensures var encrypted := Substitution(plain, key);
            KeyCovers(encrypted, ReverseKey(key)) && Substitution(encrypted, ReverseKey(key)) == plain
  {
    FullKeyCovers(plain, key);
    var encrypted := Substitution(plain, key);
    FullKeyCovers(encrypted, ReverseKey(key));
    var decrypted := Substitution(encrypted, ReverseKey(key));
    forall i | 0 <= i < |plain| ensures decrypted[i] == plain[i] {
      if IsAsciiAlphanumeric(plain[i]) {
        var p := Position(plain[i]).value;
        ReverseKeyInverts(key, p);
      }
    }
  }

  /** The alphabet itself survives encryption followed by decryption under `key`. */
  predicate AlphabetRoundTrips(key: seq<u8>)
    requires |key| == |Alphabet()|
  {
    FullKeyCovers(Alphabet(), key);
    FullKeyCovers(Substitution(Alphabet(), key), ReverseKey(key));
    Substitution(Substitution(Alphabet(), key), ReverseKey(key)) == Alphabet()
  }

  /** A key of the right length makes the round trip on the alphabet exactly
      when it is a permutation of the alphabet. */
  lemma RoundTripIffPermutation(key: seq<u8>)
    requires |key| == |Alphabet()|
    ensures AlphabetRoundTrips(key) <==> IsAlphabetPermutation(key)
  {
    if IsAlphabetPermutation(key) {
      SubstitutionRoundTrip(Alphabet(), key);
    }
    if AlphabetRoundTrips(key) {
      RoundTripNeedsPermutation(key);
    }
  }

  /** The harder direction: a key that lets the alphabet make the round trip
      lists every letter and digit exactly once. */
  lemma RoundTripNeedsPermutation(key: seq<u8>)
    requires |key| == |Alphabet()| && AlphabetRoundTrips(key)
    ensures IsAlphabetPermutation(key)
  {
    var a := Alphabet();
    FullKeyCovers(a, key);
    var encrypted := Substitution(a, key);
    FullKeyCovers(encrypted, ReverseKey(key));
    var decrypted := Substitution(encrypted, ReverseKey(key));
    forall p | 0 <= p < |key| ensures encrypted[p] == key[p] {
      PositionOfAlphabet(p);
    }
    forall p | 0 <= p < |key| ensures IsAsciiAlphanumeric(key[p]) {
      assert decrypted[p] == a[p] && a[p] in a;
    }
    forall p, q | 0 <= p < q < |key| ensures key[p] != key[q] {
      assert decrypted[p] == ReverseKey(key)[Position(key[p]).value] == a[p];
      assert decrypted[q] == ReverseKey(key)[Position(key[q]).value] == a[q];
    }
  }

  /** Encrypting and then decrypting with a permutation of the alphabet gives the text back. */
  method EncryptThenDecrypt(plain: seq<u8>, key: seq<u8>) returns (r: Result<seq<u8>, CipherOperationError>)
    requires IsAlphabetPermutation(key)
    ensures r == Ok(plain)
  {
    var encrypted := Encrypt(plain, key);
    SubstitutionRoundTrip(plain, key);
    r := Decrypt(encrypted.value, key);
  }
}
