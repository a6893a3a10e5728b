/**
 * combine_text: the text that is embedded for one article, built from its
 * title, excerpt and keywords cells.
 */
module Text {

  /**
   * One cell of the article table as the data frame hands it over: the cell
   * of a column the table does not have (or a None value, which reading a CSV
   * file never gives), a missing CSV value (pandas reads it as NaN), or a string.
   */
  datatype Cell = Absent | NaN | Str(s: string)

  /**
   * `str(x or "")`. NaN is truthy in Python, so a missing CSV value becomes the
   * text "nan"; only an absent cell or an empty string becomes "".
   */
  function Render(c: Cell): string
  {
    match c
    case Absent => ""
    case NaN => "nan"
    case Str(s) => s
  }

  /** The characters Python's `str.strip()` removes (`str.isspace()`). */
  predicate IsSpace(c: char)
  {
    var n := c as int;
    || 0x09 <= n <= 0x0D || 0x1C <= n <= 0x20 || n == 0x85 || n == 0xA0
    || n == 0x1680 || 0x2000 <= n <= 0x200A || n == 0x2028 || n == 0x2029
    || n == 0x202F || n == 0x205F || n == 0x3000
  }

  /** A string with no whitespace at either end. */
  predicate Trimmed(s: string)
  {
    s == [] || (!IsSpace(s[0]) && !IsSpace(s[|s| - 1]))
  }

  /** `s.lstrip()`: the suffix of `s` left after removing leading whitespace. */
  function TrimLeft(s: string): (r: string)
    ensures |r| <= |s| && r == s[|s| - |r|..]
    ensures forall k :: 0 <= k < |s| - |r| ==> IsSpace(s[k])
    ensures r == [] || !IsSpace(r[0])
  {
    if s != [] && IsSpace(s[0]) then TrimLeft(s[1..]) else s
  }

  /** `s.rstrip()`: the prefix of `s` left after removing trailing whitespace. */
  function TrimRight(s: string): (r: string)
    ensures |r| <= |s| && r == s[..|r|]
    ensures forall k :: |r| <= k < |s| ==> IsSpace(s[k])
    ensures r == [] || !IsSpace(r[|r| - 1])
  {
    if s != [] && IsSpace(s[|s| - 1]) then TrimRight(s[..|s| - 1]) else s
  }

  /**
   * Taking a whitespace prefix off `s` and then a whitespace suffix off the
   * rest leaves a window of `s` followed only by whitespace.
   */
  lemma {:induction false} Window(s: string, left: string, r: string)
    requires |left| <= |s| && left == s[|s| - |left|..]
    requires |r| <= |left| && r == left[..|r|]
    requires forall k :: |r| <= k < |left| ==> IsSpace(left[k])
    ensures |s| - |left| + |r| <= |s| && r == s[|s| - |left|..|s| - |left| + |r|]
    ensures forall k :: |s| - |left| + |r| <= k < |s| ==> IsSpace(s[k])
  {
    var i := |s| - |left|;
    forall k | i + |r| <= k < |s| ensures IsSpace(s[k]) {
      assert s[k] == left[k - i];
    }
  }

  /** The window is empty exactly when `s` is all whitespace. */
  lemma {:induction false} StripEmpty(s: string)
    ensures TrimRight(TrimLeft(s)) == [] <==> forall k :: 0 <= k < |s| ==> IsSpace(s[k])
  {
    var left := TrimLeft(s);
    var r := TrimRight(left);
    Window(s, left, r);
    if r != [] {
      assert r[0] == left[0] == s[|s| - |left|];
    }
  }

  /** Stripping both ends leaves no whitespace at either end. */
  lemma {:induction false} StripTrimmed(s: string)
    ensures Trimmed(TrimRight(TrimLeft(s)))
  {
    var left := TrimLeft(s);
    var r := TrimRight(left);
    if r != [] {
      assert r[0] == left[0];
    }
  }

  /**
   * `s.strip()`: no whitespace is left at either end, and nothing is left
   * exactly when `s` is all whitespace. TrimWindow says what is left.
   */
  function Trim(s: string): (r: string)
    ensures Trimmed(r)
    ensures r == [] <==> forall k :: 0 <= k < |s| ==> IsSpace(s[k])
  {
    StripEmpty(s);
    StripTrimmed(s);
    TrimRight(TrimLeft(s))
  }

  /**
   * What `s.strip()` leaves is an infix s[i..j] of `s` with only whitespace
   * before i and from j on.
   */
  lemma {:induction false} TrimWindow(s: string)
    ensures exists i, j ::
      && 0 <= i <= j <= |s| && Trim(s) == s[i..j]
      && (forall k :: 0 <= k < i ==> IsSpace(s[k]))
      && (forall k :: j <= k < |s| ==> IsSpace(s[k]))
  {
    var left := TrimLeft(s);
    var r := TrimRight(left);
    Window(s, left, r);
    var i, j := |s| - |left|, |s| - |left| + |r|;
    assert 0 <= i <= j <= |s| && Trim(s) == s[i..j];
  }

  /** `sep.join(parts)`. */
  function Join(parts: seq<string>, sep: string): (r: string)
    ensures |parts| == 0 ==> r == ""
    ensures |parts| > 0 ==> |r| >= |parts[0]| && r[..|parts[0]|] == parts[0]
    ensures |parts| > 0 ==> |r| >= |parts[|parts| - 1]| && r[|r| - |parts[|parts| - 1]|..] == parts[|parts| - 1]
  {
    if |parts| == 0 then ""
    else if |parts| == 1 then parts[0]
    else parts[0] + sep + Join(parts[1..], sep)
  }

  /**
   * Joining non-empty, trimmed parts gives a trimmed string, which is empty
   * exactly when there are no parts.
   */
  lemma {:induction false} JoinOfTrimmedParts(parts: seq<string>, sep: string)
    requires forall p :: p in parts ==> p != "" && Trimmed(p)
    ensures Trimmed(Join(parts, sep))
    ensures Join(parts, sep) == "" <==> parts == []
  {
    if parts != [] {
      var r, first, last := Join(parts, sep), parts[0], parts[|parts| - 1];
      assert first in parts && last in parts;
      assert r[0] == r[..|first|][0] == first[0];
      assert r[|r| - 1] == r[|r| - |last|..][|last| - 1] == last[|last| - 1];
    }
  }

  /** The list comprehension `[p.strip() for p in parts if p.strip()]`. */
  function NonEmptyStripped(parts: seq<string>): seq<string>
  {
    if parts == [] then []
    else
      var p := Trim(parts[0]);
      (if p != "" then [p] else []) + NonEmptyStripped(parts[1..])
  }

  /**
   * The comprehension keeps at most every part, keeps only non-empty trimmed
   * strings, and keeps nothing exactly when every part strips to nothing.
   */
  lemma {:induction false} NonEmptyStrippedSpec(parts: seq<string>)
    ensures |NonEmptyStripped(parts)| <= |parts|
    ensures forall p :: p in NonEmptyStripped(parts) ==> p != "" && Trimmed(p)
    ensures NonEmptyStripped(parts) == [] <==> forall k :: 0 <= k < |parts| ==> Trim(parts[k]) == ""
  {
    StrippedShape(parts);
    StrippedEmpty(parts);
  }

  lemma {:induction false} StrippedShape(parts: seq<string>)
    ensures |NonEmptyStripped(parts)| <= |parts|
    ensures forall p :: p in NonEmptyStripped(parts) ==> p != "" && Trimmed(p)
  {
    if parts != [] {
      StrippedShape(parts[1..]);
    }
  }

  lemma {:induction false} StrippedEmpty(parts: seq<string>)
    ensures NonEmptyStripped(parts) == [] <==> forall k :: 0 <= k < |parts| ==> Trim(parts[k]) == ""
  {
    if parts != [] {
      StrippedEmpty(parts[1..]);
      assert forall k :: 1 <= k < |parts| ==> parts[k] == parts[1..][k - 1];
    }
  }

  /** The separator combine_text puts between the surviving fields. */
  const Separator: string := ". "

  /**
   * combine_text: the ". "-join of the stripped, non-empty renderings of the
   * title, excerpt and keywords cells, in that order.
   */
  function CombineText(title: Cell, excerpt: Cell, keywords: Cell): (r: string)
    ensures r == "" <==>
      Trim(Render(title)) == "" && Trim(Render(excerpt)) == "" && Trim(Render(keywords)) == ""
    ensures Trimmed(r)
  {
    CombineFields(Render(title), Render(excerpt), Render(keywords));
    Join(NonEmptyStripped([Render(title), Render(excerpt), Render(keywords)]), Separator)
  }

  lemma {:induction false} CombineFields(a: string, b: string, c: string)
    ensures Join(NonEmptyStripped([a, b, c]), Separator) == "" <==> Trim(a) == "" && Trim(b) == "" && Trim(c) == ""
    ensures Trimmed(Join(NonEmptyStripped([a, b, c]), Separator))
  {
    var fields := [a, b, c];
    var parts := NonEmptyStripped(fields);
    StrippedShape(fields);
    JoinOfTrimmedParts(parts, Separator);
    StrippedThree(fields);
    assert fields[0] == a && fields[1] == b && fields[2] == c;
    assert |parts| == |Kept(a)| + |Kept(b)| + |Kept(c)|;
  }

  /** What one field contributes to the list comprehension. */
  function Kept(field: string): seq<string>
  {
    if Trim(field) != "" then [Trim(field)] else []
  }

  lemma {:induction false} StrippedFront(parts: seq<string>)
    requires parts != []
    ensures NonEmptyStripped(parts) == Kept(parts[0]) + NonEmptyStripped(parts[1..])
  {
  }

  lemma {:induction false} ConcatThree<T>(x: seq<T>, y: seq<T>, z: seq<T>)
    ensures x + (y + (z + [])) == x + y + z
  {
    assert z + [] == z;
  }

  lemma {:induction false} StrippedThree(parts: seq<string>)
    requires |parts| == 3
    ensures NonEmptyStripped(parts) == Kept(parts[0]) + Kept(parts[1]) + Kept(parts[2])
  {
    var p1 := parts[1..];
    var p2 := p1[1..];
    var k0, k1, k2 := Kept(parts[0]), Kept(parts[1]), Kept(parts[2]);
    assert p1[0] == parts[1] && p2[0] == parts[2];
    StrippedFront(p2);
    assert p2[1..] == [];
    assert NonEmptyStripped(p2) == k2 + [];
    StrippedFront(p1);
    assert NonEmptyStripped(p1) == k1 + (k2 + []);
    StrippedFront(parts);
    ConcatThree(k0, k1, k2);
  }

  /** A string without whitespace is its own strip. */
  lemma {:induction false} TrimOfUnspaced(s: string)
    requires forall k :: 0 <= k < |s| ==> !IsSpace(s[k])
    ensures Trim(s) == s
  {
    TrimWindow(s);
    var i, j :| && 0 <= i <= j <= |s| && Trim(s) == s[i..j]
      && (forall k :: 0 <= k < i ==> IsSpace(s[k]))
      && (forall k :: j <= k < |s| ==> IsSpace(s[k]));
  }

  /** Joining what a single field contributes gives that field stripped. */
  lemma {:induction false} JoinKept(a: string)
    ensures Join(Kept(a), Separator) == Trim(a)
  {
    if Trim(a) != "" {
      assert Kept(a) == [Trim(a)];
    }
  }

  lemma {:induction false} OnlyFirst(a: string, b: string, c: string)
    requires Trim(b) == "" && Trim(c) == ""
    ensures Join(NonEmptyStripped([a, b, c]), Separator) == Trim(a)
  {
    var fields := [a, b, c];
    StrippedThree(fields);
    assert fields[0] == a && fields[1] == b && fields[2] == c;
    var ka := Kept(a);
    assert Kept(b) == [] && Kept(c) == [];
    assert ka + [] + [] == ka;
    JoinKept(a);
  }

  lemma {:induction false} HeadOfConcat<T>(x: seq<T>, y: seq<T>, z: seq<T>, t: T)
    requires x == [t]
    ensures |x + y + z| > 0 && (x + y + z)[0] == t
  {
  }

  lemma {:induction false} FirstLeads(a: string, b: string, c: string)
    requires Trim(a) != ""
    ensures Join(NonEmptyStripped([a, b, c]), Separator)[..|Trim(a)|] == Trim(a)
  {
    var fields := [a, b, c];
    StrippedThree(fields);
    assert fields[0] == a && fields[1] == b && fields[2] == c;
    assert Kept(a) == [Trim(a)];
    HeadOfConcat(Kept(a), Kept(b), Kept(c), Trim(a));
  }

  /** A title that survives stripping opens the combined text. */
  lemma {:induction false} CombineTextLeadsWithTitle(title: Cell, excerpt: Cell, keywords: Cell)
    requires Trim(Render(title)) != ""
    ensures CombineText(title, excerpt, keywords)[..|Trim(Render(title))|] == Trim(Render(title))
  {
    FirstLeads(Render(title), Render(excerpt), Render(keywords));
  }

  /** When the excerpt and the keywords strip to nothing, the combined text is the stripped title. */
  lemma {:induction false} CombineTextOfTitleAlone(title: Cell, excerpt: Cell, keywords: Cell)
    requires Trim(Render(excerpt)) == "" && Trim(Render(keywords)) == ""
    ensures CombineText(title, excerpt, keywords) == Trim(Render(title))
  {
    OnlyFirst(Render(title), Render(excerpt), Render(keywords));
  }

  /** A missing cell (NaN in the frame) is rendered as the text "nan", so it is never dropped. */
  lemma {:induction false} MissingCellIsKept(excerpt: Cell, keywords: Cell)
    ensures CombineText(NaN, excerpt, keywords) != ""
  {
    var s := Render(NaN);
    assert !IsSpace(s[0]);
  }
}
