/**
 * dataset_signature: the MD5 digest of a byte stream built from the model
 * name and the (url, combined text) pairs of the corpus, in corpus order.
 * The digest itself is a parameter; what is modelled and proved is the
 * stream: its exact shape, and that it determines the model name, the URLs
 * and the texts when none of them contains NUL.
 */
module Signature {
  import opened Utf8

  /** `hashlib.md5()`, seen through the bytes fed to it; its digest is a function of them. */
  class Hasher {
    var fed: seq<byte>

    constructor ()
      ensures fed == []
    {
      fed := [];
    }

    /** `hasher.update(data)`. */
    method Update(data: seq<byte>)
      modifies this
      ensures fed == old(fed) + data
    {
      fed := fed + data;
    }
  }

  /** `zip(urls, texts)`: the pairs up to the shorter of the two. */
  function Zip(urls: seq<string>, texts: seq<string>): (r: seq<(string, string)>)
  {
    var n := if |urls| <= |texts| then |urls| else |texts|;
    seq(n, i requires 0 <= i < n => (urls[i], texts[i]))
  }

  /** The bytes written for one pair: NUL, the URL, NUL, the text. */
  function Record(p: (string, string)): seq<byte>
  {
    [0] + Encode(p.0) + [0] + Encode(p.1)
  }

  function Records(pairs: seq<(string, string)>): seq<byte>
  {
    if pairs == [] then [] else Record(pairs[0]) + Records(pairs[1..])
  }

  /** Everything fed to the hasher: the model name, then one record per pair. */
  function Stream(modelName: string, pairs: seq<(string, string)>): seq<byte>
  {
    Encode(modelName) + Records(pairs)
  }

  lemma {:induction false} RecordsAppend(pairs: seq<(string, string)>, p: (string, string))
    ensures Records(pairs + [p]) == Records(pairs) + Record(p)
  {
    if pairs != [] {
      assert (pairs + [p])[1..] == pairs[1..] + [p];
      RecordsAppend(pairs[1..], p);
    }
  }

  /** Feeding one more pair extends the stream by that pair's record. */
  lemma {:induction false} RecordsStep(pairs: seq<(string, string)>, i: nat)
    requires i < |pairs|
    ensures Records(pairs[..i + 1]) == Records(pairs[..i]) + Record(pairs[i])
  {
    assert pairs[..i + 1] == pairs[..i] + [pairs[i]];
    RecordsAppend(pairs[..i], pairs[i]);
  }

  lemma {:induction false} AppendAssoc(a: seq<byte>, b: seq<byte>, c: seq<byte>)
    ensures a + b + c == a + (b + c)
  {
  }

  /** The loop body of dataset_signature: feeds NUL, the URL, NUL and the text. */
  method FeedRecord(hasher: Hasher, p: (string, string))
    modifies hasher
    ensures hasher.fed == old(hasher.fed) + Record(p)
  {
    hasher.Update([0]);
    hasher.Update(Encode(p.0));
    hasher.Update([0]);
    hasher.Update(Encode(p.1));
  }

  /**
   * dataset_signature: the digest of exactly the model name followed by NUL,
   * URL, NUL, text for each pair of `zip(urls, texts)`.
   */
  method DatasetSignature(urls: seq<string>, texts: seq<string>, modelName: string,
                          digest: seq<byte> -> string)
    returns (sig: string)
    ensures sig == digest(Stream(modelName, Zip(urls, texts)))
  {
    var hasher := new Hasher();
    hasher.Update(Encode(modelName));
    var pairs := Zip(urls, texts);
    ghost var head := Encode(modelName);
    for i := 0 to |pairs|
      invariant hasher.fed == head + Records(pairs[..i])
    {
      ghost var done := Records(pairs[..i]);
      FeedRecord(hasher, pairs[i]);
      RecordsStep(pairs, i);
      AppendAssoc(head, done, Record(pairs[i]));
    }
    assert pairs[..|pairs|] == pairs;
    sig := digest(hasher.fed);
  }

  // ---------------------------------------------------------------------------
  // The stream determines what it was built from.

  /** No URL and no text of the pairs contains NUL. */
  predicate NoNul(pairs: seq<(string, string)>)
  {
    forall i :: 0 <= i < |pairs| ==> '\0' !in pairs[i].0 && '\0' !in pairs[i].1
  }

  /** Empty, or starts with the 0 byte that separates fields. */
  predicate StartsAtSeparator(bs: seq<byte>)
  {
    bs == [] || bs[0] == 0
  }

  /**
   * A field free of 0 bytes, followed by a separator or by nothing, is
   * recovered whole from the concatenation.
   */
  lemma {:induction false} FieldBeforeSeparator(a1: seq<byte>, r1: seq<byte>, a2: seq<byte>, r2: seq<byte>)
    requires 0 !in a1 && 0 !in a2
    requires StartsAtSeparator(r1) && StartsAtSeparator(r2)
    requires a1 + r1 == a2 + r2
    ensures a1 == a2 && r1 == r2
  {
    var s := a1 + r1;
    assert forall k :: 0 <= k < |a1| ==> s[k] == a1[k];
    assert forall k :: 0 <= k < |a2| ==> s[k] == a2[k];
    assert r1 != [] ==> s[|a1|] == r1[0];
    assert r2 != [] ==> s[|a2|] == r2[0];
    assert |a1| == |a2|;
    assert a1 == s[..|a1|] == a2;
    assert r1 == s[|a1|..] == r2;
  }

  lemma {:induction false} RecordsStartAtSeparator(pairs: seq<(string, string)>)
    ensures StartsAtSeparator(Records(pairs))
  {
  }

  lemma {:induction false} NoNulTail(pairs: seq<(string, string)>)
    requires pairs != [] && NoNul(pairs)
    ensures NoNul(pairs[1..]) && '\0' !in pairs[0].0 && '\0' !in pairs[0].1
  {
    forall i | 0 <= i < |pairs| - 1 ensures '\0' !in pairs[1..][i].0 && '\0' !in pairs[1..][i].1 {
      assert pairs[1..][i] == pairs[i + 1];
    }
  }

  /** Two separated fields free of 0 bytes, followed by a separator or nothing, are recovered whole. */
  lemma {:induction false} TwoFieldsBeforeSeparator(a1: seq<byte>, b1: seq<byte>, r1: seq<byte>,
                                 a2: seq<byte>, b2: seq<byte>, r2: seq<byte>)
    requires 0 !in a1 && 0 !in b1 && 0 !in a2 && 0 !in b2
    requires StartsAtSeparator(r1) && StartsAtSeparator(r2)
    requires [0] + a1 + [0] + b1 + r1 == [0] + a2 + [0] + b2 + r2
    ensures a1 == a2 && b1 == b2 && r1 == r2
  {
    var s1, s2 := [0] + a1 + [0] + b1 + r1, [0] + a2 + [0] + b2 + r2;
    var x1, x2 := [0] + b1 + r1, [0] + b2 + r2;
    assert a1 + x1 == s1[1..] == s2[1..] == a2 + x2;
    FieldBeforeSeparator(a1, x1, a2, x2);
    assert b1 + r1 == x1[1..] == x2[1..] == b2 + r2;
    FieldBeforeSeparator(b1, r1, b2, r2);
  }

  /** One record followed by a separator or nothing is recovered whole. */
  lemma {:induction false} RecordBeforeSeparator(p1: (string, string), r1: seq<byte>, p2: (string, string), r2: seq<byte>)
    requires '\0' !in p1.0 && '\0' !in p1.1 && '\0' !in p2.0 && '\0' !in p2.1
    requires StartsAtSeparator(r1) && StartsAtSeparator(r2)
    requires Record(p1) + r1 == Record(p2) + r2
    ensures p1 == p2 && r1 == r2
  {
    EncodeHasNoZero(p1.0); EncodeHasNoZero(p1.1);
    EncodeHasNoZero(p2.0); EncodeHasNoZero(p2.1);
    TwoFieldsBeforeSeparator(Encode(p1.0), Encode(p1.1), r1, Encode(p2.0), Encode(p2.1), r2);
    EncodeInjective(p1.0, p2.0);
    EncodeInjective(p1.1, p2.1);
  }

  /** When no string contains NUL, equal record streams come from equal pair lists. */
  lemma {:induction false} RecordsInjective(p1: seq<(string, string)>, p2: seq<(string, string)>)
    requires NoNul(p1) && NoNul(p2)
    requires Records(p1) == Records(p2)
    ensures p1 == p2
    decreases |p1|
  {
    if p1 != [] && p2 != [] {
      NoNulTail(p1);
      NoNulTail(p2);
      RecordsStartAtSeparator(p1[1..]);
      RecordsStartAtSeparator(p2[1..]);
      RecordBeforeSeparator(p1[0], Records(p1[1..]), p2[0], Records(p2[1..]));
      RecordsInjective(p1[1..], p2[1..]);
      assert p1 == [p1[0]] + p1[1..] && p2 == [p2[0]] + p2[1..];
    }
  }

  /**
   * The stream is injective: when no string contains NUL and the URL and text
   * lists have equal lengths, equal streams come from the same model name, the
   * same URLs in the same order and the same texts.
   */
  lemma {:induction false} StreamInjective(m1: string, urls1: seq<string>, texts1: seq<string>,
                        m2: string, urls2: seq<string>, texts2: seq<string>)
    requires |urls1| == |texts1| && |urls2| == |texts2|
    requires '\0' !in m1 && NoNul(Zip(urls1, texts1))
    requires '\0' !in m2 && NoNul(Zip(urls2, texts2))
    requires Stream(m1, Zip(urls1, texts1)) == Stream(m2, Zip(urls2, texts2))
    ensures m1 == m2 && urls1 == urls2 && texts1 == texts2
  {
    var z1, z2 := Zip(urls1, texts1), Zip(urls2, texts2);
    EncodeHasNoZero(m1);
    EncodeHasNoZero(m2);
    RecordsStartAtSeparator(z1);
    RecordsStartAtSeparator(z2);
    FieldBeforeSeparator(Encode(m1), Records(z1), Encode(m2), Records(z2));
    EncodeInjective(m1, m2);
    RecordsInjective(z1, z2);
    assert forall i :: 0 <= i < |urls1| ==> urls1[i] == z1[i].0 == urls2[i] && texts1[i] == z1[i].1 == texts2[i];
  }
}
