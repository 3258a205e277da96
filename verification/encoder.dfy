/**
 * `CharacterEncoder`: the bijection between an alphabet and class indices that
 * the recogniser trains on, with -1 and "" as the sentinels for an unknown
 * character and an unknown index, and the alphabet `HEBREW_CHARS` it is built
 * with.
 */
module Encoder {
  import opened Seqs

  /** An encoder is its alphabet; position `i` is class `i`. */
  datatype CharacterEncoder = CharacterEncoder(characters: seq<string>)

  /**
   * `char_to_idx` as the dict comprehension leaves it after the first `n`
   * positions: each position overwrites the entry of an equal earlier one, so
   * a character maps to its LAST position.
   */
  function CharToIdx(cs: seq<string>, n: nat): (m: map<string, int>)
    requires n <= |cs|
    ensures forall c :: c in m <==> exists i :: 0 <= i < n && cs[i] == c
    ensures forall c :: c in m ==> 0 <= m[c] < n && cs[m[c]] == c
    ensures forall c, j :: c in m && m[c] < j < n ==> cs[j] != c
  {
    if n == 0 then map[] else CharToIdx(cs, n - 1)[cs[n - 1] := n - 1]
  }

  /** `idx_to_char`: each position maps to its character. */
  function IdxToChar(cs: seq<string>): (m: map<int, string>)
    ensures forall i :: i in m <==> 0 <= i < |cs|
    ensures forall i :: i in m ==> m[i] == cs[i]
  {
    map i | 0 <= i < |cs| :: cs[i]
  }

  /**
   * `encode`: the class of `c`, or -1 when `c` is not in the alphabet. A
   * repeated character encodes to its last position.
   */
  function Encode(e: CharacterEncoder, c: string): (r: int)
    ensures -1 <= r < |e.characters|
    ensures r == -1 <==> c !in e.characters
    ensures r != -1 ==> e.characters[r] == c
    ensures forall j :: r < j < |e.characters| ==> e.characters[j] != c
  {
    var m := CharToIdx(e.characters, |e.characters|);
    if c in m then m[c] else -1
  }

  /** `decode`: the character of class `i`, or "" for any other index, negative ones included. */
  function Decode(e: CharacterEncoder, i: int): (r: string)
    ensures 0 <= i < |e.characters| ==> r == e.characters[i]
    ensures !(0 <= i < |e.characters|) ==> r == ""
  {
    var m := IdxToChar(e.characters);
    if i in m then m[i] else ""
  }

  /** `encode_batch`: `encode` applied elementwise, keeping length and order. */
  function EncodeBatch(e: CharacterEncoder, chars: seq<string>): (r: seq<int>)
    ensures |r| == |chars|
    ensures forall i :: 0 <= i < |r| ==> r[i] == Encode(e, chars[i])
  {
    seq(|chars|, i requires 0 <= i < |chars| => Encode(e, chars[i]))
  }

  /** `decode_batch`: `decode` applied elementwise, keeping length and order. */
  function DecodeBatch(e: CharacterEncoder, indices: seq<int>): (r: seq<string>)
    ensures |r| == |indices|
    ensures forall i :: 0 <= i < |r| ==> r[i] == Decode(e, indices[i])
  {
    seq(|indices|, i requires 0 <= i < |indices| => Decode(e, indices[i]))
  }

  /**
   * `get_num_classes`: the number of entries of `idx_to_char`. Every code
   * `encode` produces is below it and `decode` knows nothing at or above it;
   * `char_to_idx` has as many entries exactly when the alphabet has no repeats.
   */
  function NumClasses(e: CharacterEncoder): (r: nat)
    ensures r == |IdxToChar(e.characters)|
    ensures |CharToIdx(e.characters, |e.characters|)| <= r
    ensures |CharToIdx(e.characters, |e.characters|)| == r <==> Distinct(e.characters)
    ensures forall c :: Encode(e, c) < r
    ensures forall i :: i >= r ==> Decode(e, i) == ""
    ensures forall i :: 0 <= i < r ==> Encode(e, Decode(e, i)) != -1
  {
    IdxToCharSize(e.characters);
    CharToIdxSize(e.characters);
    |e.characters|
  }

  /** `idx_to_char` has one entry per position. */
  lemma IdxToCharSize(cs: seq<string>)
    ensures |IdxToChar(cs)| == |cs|
  {
    var keys := set x | x in Range(|cs|);
    DistinctCard(Range(|cs|));
    assert IdxToChar(cs).Keys == keys by {
      forall i | i in keys ensures i in IdxToChar(cs) {
        var k :| 0 <= k < |cs| && Range(|cs|)[k] == i;
      }
      forall i | i in IdxToChar(cs) ensures i in keys {
        assert Range(|cs|)[i] == i;
      }
    }
  }

  /**
   * `char_to_idx` has one entry per distinct character: as many as there are
   * positions exactly when the alphabet has no repeats.
   */
  lemma CharToIdxSize(cs: seq<string>)
    ensures |CharToIdx(cs, |cs|)| <= |cs|
    ensures |CharToIdx(cs, |cs|)| == |cs| <==> Distinct(cs)
  {
    var m := CharToIdx(cs, |cs|);
    assert m.Keys == set x | x in cs;
    ElementsCard(cs);
  }



  /** In a duplicate-free alphabet every character encodes to its own position. */
  lemma EncodePosition(e: CharacterEncoder, i: nat)
    requires Distinct(e.characters) && i < |e.characters|
    ensures Encode(e, e.characters[i]) == i
  {
    var r := Encode(e, e.characters[i]);
    assert e.characters[r] == e.characters[i];
  }

  /** Decoding an encoded character gives it back; with duplicates too, since the last position holds the same character. */
  lemma DecodeEncode(e: CharacterEncoder, c: string)
    ensures c in e.characters ==> Decode(e, Encode(e, c)) == c
    ensures c !in e.characters ==> Decode(e, Encode(e, c)) == ""
  {
  }

  /** Encoding a decoded index gives the index back exactly when the alphabet has no duplicates. */
  lemma EncodeDecode(e: CharacterEncoder)
    ensures Distinct(e.characters) <==> forall i :: 0 <= i < |e.characters| ==> Encode(e, Decode(e, i)) == i
  {
    if Distinct(e.characters) {
      forall i | 0 <= i < |e.characters| ensures Encode(e, Decode(e, i)) == i {
        EncodePosition(e, i);
      }
    }
    if !Distinct(e.characters) {
      var i, j :| 0 <= i < j < |e.characters| && e.characters[i] == e.characters[j];
      assert Encode(e, Decode(e, i)) != i;
    }
  }

  /** A batch of alphabet characters survives encoding then decoding. */
  lemma BatchRoundTrip(e: CharacterEncoder, chars: seq<string>)
    requires forall k :: 0 <= k < |chars| ==> chars[k] in e.characters
    ensures DecodeBatch(e, EncodeBatch(e, chars)) == chars
  {
    var r := DecodeBatch(e, EncodeBatch(e, chars));
    forall k | 0 <= k < |chars| ensures r[k] == chars[k] {
      DecodeEncode(e, chars[k]);
    }
  }

  /** A batch of valid indices survives decoding then encoding, for a duplicate-free alphabet. */
  lemma IndexBatchRoundTrip(e: CharacterEncoder, indices: seq<int>)
    requires Distinct(e.characters)
    requires forall k :: 0 <= k < |indices| ==> 0 <= indices[k] < NumClasses(e)
    ensures EncodeBatch(e, DecodeBatch(e, indices)) == indices
  {
    var r := EncodeBatch(e, DecodeBatch(e, indices));
    forall k | 0 <= k < |indices| ensures r[k] == indices[k] {
      EncodePosition(e, indices[k]);
    }
  }

  /** The 27 Hebrew letters in the configured order, final forms after their base forms. */
  const AlefToYod: seq<char> := [
    '\U{05D0}', '\U{05D1}', '\U{05D2}', '\U{05D3}', '\U{05D4}',
    '\U{05D5}', '\U{05D6}', '\U{05D7}', '\U{05D8}', '\U{05D9}'
  ]
  const KafToAyin: seq<char> := [
    '\U{05DB}', '\U{05DA}', '\U{05DC}', '\U{05DE}', '\U{05DD}',
    '\U{05E0}', '\U{05DF}', '\U{05E1}', '\U{05E2}'
  ]
  const PeToTav: seq<char> := [
    '\U{05E4}', '\U{05E3}', '\U{05E6}', '\U{05E5}', '\U{05E7}',
    '\U{05E8}', '\U{05E9}', '\U{05EA}'
  ]
  /** Space and the common punctuation that follow the letters. */
  const SpaceAndPunctuation: seq<char> := [' ', '.', ',', '!', '?', '-', '"', '\'']

  /** One-character strings, as the alphabet list holds them. */
  function Strings(cs: seq<char>): (r: seq<string>)
    ensures |r| == |cs|
    ensures forall i :: 0 <= i < |r| ==> |r[i]| == 1 && r[i][0] == cs[i]
  {
    seq(|cs|, i requires 0 <= i < |cs| => [cs[i]])
  }

  /** `HEBREW_CHARS`: the letters, then space and punctuation. */
  const HebrewChars: seq<string> := Strings(AlefToYod + KafToAyin + PeToTav + SpaceAndPunctuation)

  /** Every character of `s` lies in `[lo, hi)`. */
  predicate Within(s: seq<char>, lo: char, hi: char) {
    forall i :: 0 <= i < |s| ==> lo <= s[i] < hi
  }

  /** Two duplicate-free runs whose character ranges do not overlap join into a duplicate-free run. */
  lemma DistinctJoin(a: seq<char>, b: seq<char>, la: char, ha: char, lb: char, hb: char)
    requires Distinct(a) && Within(a, la, ha)
    requires Distinct(b) && Within(b, lb, hb)
    requires ha <= lb || hb <= la
    ensures Distinct(a + b)
  {
    forall i, j | 0 <= i < j < |a + b| ensures (a + b)[i] != (a + b)[j] {
      if j < |a| {
        assert (a + b)[i] == a[i] && (a + b)[j] == a[j];
      } else if i >= |a| {
        assert (a + b)[i] == b[i - |a|] && (a + b)[j] == b[j - |a|];
      } else {
        assert (a + b)[i] == a[i] && (a + b)[j] == b[j - |a|];
      }
    }
  }

  /** Within a range is kept by joining two runs that are within it. */
  lemma WithinJoin(a: seq<char>, b: seq<char>, lo: char, hi: char)
    requires Within(a, lo, hi) && Within(b, lo, hi)
    ensures Within(a + b, lo, hi)
  {
    forall i | 0 <= i < |a + b| ensures lo <= (a + b)[i] < hi {
      if i < |a| {
        assert (a + b)[i] == a[i];
      } else {
        assert (a + b)[i] == b[i - |a|];
      }
    }
  }

  /** Distinct characters give distinct one-character strings. */
  lemma StringsDistinct(cs: seq<char>)
    requires Distinct(cs)
    ensures Distinct(Strings(cs))
  {
    var r := Strings(cs);
    forall i, j | 0 <= i < j < |r| ensures r[i] != r[j] {
      assert r[i][0] == cs[i] && r[j][0] == cs[j];
    }
  }

  lemma AlefToYodDistinct()
    ensures Distinct(AlefToYod) && Within(AlefToYod, '\U{05D0}', '\U{05DA}')
  {
  }

  lemma KafToAyinDistinct()
    ensures Distinct(KafToAyin) && Within(KafToAyin, '\U{05DA}', '\U{05E3}')
  {
  }

  lemma PeToTavDistinct()
    ensures Distinct(PeToTav) && Within(PeToTav, '\U{05E3}', '\U{05EB}')
  {
  }

  lemma PunctuationDistinct()
    ensures Distinct(SpaceAndPunctuation) && Within(SpaceAndPunctuation, ' ', '@')
  {
  }

  /** The configured alphabet has 35 characters and no duplicates. */
  lemma HebrewCharsDistinct()
    ensures |HebrewChars| == 35 && Distinct(HebrewChars)
  {
    AlefToYodDistinct();
    KafToAyinDistinct();
    PeToTavDistinct();
    PunctuationDistinct();
    DistinctJoin(AlefToYod, KafToAyin, '\U{05D0}', '\U{05DA}', '\U{05DA}', '\U{05E3}');
    WithinJoin(AlefToYod, KafToAyin, '\U{05D0}', '\U{05E3}');
    DistinctJoin(AlefToYod + KafToAyin, PeToTav, '\U{05D0}', '\U{05E3}', '\U{05E3}', '\U{05EB}');
    WithinJoin(AlefToYod + KafToAyin, PeToTav, '\U{05D0}', '\U{05EB}');
    DistinctJoin(AlefToYod + KafToAyin + PeToTav, SpaceAndPunctuation, '\U{05D0}', '\U{05EB}', ' ', '@');
    StringsDistinct(AlefToYod + KafToAyin + PeToTav + SpaceAndPunctuation);
  }

  /** The recogniser's encoder: 35 classes, each character its own position. */
  lemma HebrewEncoder()
    ensures NumClasses(CharacterEncoder(HebrewChars)) == 35
    ensures forall i :: 0 <= i < 35 ==> Encode(CharacterEncoder(HebrewChars), HebrewChars[i]) == i
    ensures Encode(CharacterEncoder(HebrewChars), "\U{05D0}") == 0
  {
    var e := CharacterEncoder(HebrewChars);
    HebrewCharsDistinct();
    forall i | 0 <= i < 35 ensures Encode(e, HebrewChars[i]) == i {
      EncodePosition(e, i);
    }
    assert HebrewChars[0] == "\U{05D0}";
  }

  /** The sentinels of the recogniser's encoder: a Latin letter and indices outside 0..34. */
  lemma HebrewSentinels()
    ensures Encode(CharacterEncoder(HebrewChars), "A") == -1
    ensures Decode(CharacterEncoder(HebrewChars), -1) == ""
    ensures Decode(CharacterEncoder(HebrewChars), 35) == ""
  {
    var letters := AlefToYod + KafToAyin + PeToTav;
    AlefToYodDistinct();
    KafToAyinDistinct();
    PeToTavDistinct();
    PunctuationDistinct();
    WithinJoin(AlefToYod, KafToAyin, '\U{05D0}', '\U{05E3}');
    WithinJoin(AlefToYod + KafToAyin, PeToTav, '\U{05D0}', '\U{05EB}');
    forall k | 0 <= k < |HebrewChars| ensures HebrewChars[k] != "A" {
      assert HebrewChars[k][0] == (letters + SpaceAndPunctuation)[k];
      if k < |letters| {
        assert (letters + SpaceAndPunctuation)[k] == letters[k];
      } else {
        assert (letters + SpaceAndPunctuation)[k] == SpaceAndPunctuation[k - |letters|];
      }
    }
  }
}
