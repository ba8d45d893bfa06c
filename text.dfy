/** The Python string primitives the bot's bookkeeping is built on: `split(',')`
    and `','.join(...)` for the comma-joined id and nickname columns, `str(int)`
    and `int(text)`, `strip()`, `lower()`, the `in` test on strings (and SQL
    `LIKE '%x%'`), and code-point ordering of strings as `sorted` uses it. */
module Text {
  import opened Wrappers

  const Comma: char := ','

  // ---------------------------------------------------------------------------
  // split(',') and ','.join(...)

  /** Python's `s.split(',')`: at least one piece, and no piece holds a comma. */
  function Split(s: string): (r: seq<string>)
    ensures |r| >= 1
    ensures forall i :: 0 <= i < |r| ==> Comma !in r[i]
  {
    if s == [] then [""]
    else
      var rest := Split(s[1..]);
      if s[0] == Comma then [""] + rest
      else [[s[0]] + rest[0]] + rest[1..]
  }

  /** Python's `','.join(xs)`. */
  function Join(xs: seq<string>): string
  {
    if |xs| == 0 then ""
    else if |xs| == 1 then xs[0]
    else xs[0] + [Comma] + Join(xs[1..])
  }

  /** `s.split(',') if s else []`: how the source reads a nullable comma-joined
      column (an empty or NULL column is an empty list). */
  function SplitOrEmpty(s: string): (r: seq<string>)
    ensures s == "" <==> r == []
    ensures forall i :: 0 <= i < |r| ==> Comma !in r[i]
  {
    if s == "" then [] else Split(s)
  }

  predicate NoCommas(xs: seq<string>)
  {
    forall i :: 0 <= i < |xs| ==> Comma !in xs[i]
  }

  /** Joining the pieces of a split gives back the text. */
  lemma {:induction false} JoinSplit(s: string)
    ensures Join(Split(s)) == s
  {
    if s != [] {
      var rest := Split(s[1..]);
      JoinSplit(s[1..]);
      if s[0] == Comma {
        assert Split(s) == [""] + rest;
        assert Join(Split(s)) == "" + [Comma] + Join(rest);
      } else {
        assert Split(s) == [[s[0]] + rest[0]] + rest[1..];
        if |rest| == 1 {
          assert Join(rest) == rest[0];
        } else {
          assert Join(rest) == rest[0] + [Comma] + Join(rest[1..]);
          assert Join(Split(s)) == [s[0]] + rest[0] + [Comma] + Join(rest[1..]);
        }
        assert s == [s[0]] + s[1..];
      }
    }
  }

  lemma {:induction false} SplitNoComma(a: string)
    requires Comma !in a
    ensures Split(a) == [a]
  {
    if a != [] {
      SplitNoComma(a[1..]);
      assert a == [a[0]] + a[1..];
    }
  }

  lemma {:induction false} SplitAfterPiece(a: string, b: string)
    requires Comma !in a
    ensures Split(a + [Comma] + b) == [a] + Split(b)
  {
    if a == [] {
      assert a + [Comma] + b == [Comma] + b;
      assert ([Comma] + b)[1..] == b;
    } else {
      var s := a + [Comma] + b;
      assert s[1..] == a[1..] + [Comma] + b;
      SplitAfterPiece(a[1..], b);
      assert [a[0]] + a[1..] == a;
    }
  }

  /** Splitting a join of comma-free pieces gives back the pieces. */
  lemma {:induction false} SplitJoin(xs: seq<string>)
    requires |xs| >= 1 && NoCommas(xs)
    ensures Split(Join(xs)) == xs
  {
    if |xs| == 1 {
      SplitNoComma(xs[0]);
    } else {
      SplitJoin(xs[1..]);
      SplitAfterPiece(xs[0], Join(xs[1..]));
      assert [xs[0]] + xs[1..] == xs;
    }
  }

  /** The form used on nullable columns: reading back a join gives the list,
      except for the one list `[""]` whose join is the empty column. */
  lemma SplitOrEmptyJoin(xs: seq<string>)
    requires NoCommas(xs) && xs != [""]
    ensures SplitOrEmpty(Join(xs)) == xs
  {
    if |xs| >= 1 {
      SplitJoin(xs);
    }
  }

  /** `','.join((s.split(',') if s else []) + [x])`: append one item to a
      comma-joined column. */
  function AppendItem(s: string, x: string): string
  {
    Join(SplitOrEmpty(s) + [x])
  }

  /** Appending a comma-free item puts it at the end of the list read back,
      unless both the column and the item are empty. */
  lemma AppendItemReadBack(s: string, x: string)
    requires Comma !in x && (s != "" || x != "")
    ensures SplitOrEmpty(AppendItem(s, x)) == SplitOrEmpty(s) + [x]
  {
    var xs := SplitOrEmpty(s) + [x];
    if s == "" {
      assert xs == [x];
    } else {
      assert |SplitOrEmpty(s)| >= 1 && |xs| >= 2;
    }
    assert NoCommas(xs);
    SplitOrEmptyJoin(xs);
  }

  /** Every piece of a join occurs in it as a substring. */
  lemma {:induction false} PieceInJoin(xs: seq<string>, i: nat)
    requires i < |xs|
    ensures IsSubstring(xs[i], Join(xs))
  {
    if |xs| == 1 {
      SubstringAt(xs[0], xs[0], 0);
    } else if i == 0 {
      SubstringAt(xs[0], Join(xs), 0);
    } else {
      PieceInJoin(xs[1..], i - 1);
      assert xs[1..][i - 1] == xs[i];
      SubstringOffset(xs[i], Join(xs[1..]));
      var j: nat :| OccursAt(xs[i], Join(xs[1..]), j);
      var pre := xs[0] + [Comma];
      assert Join(xs) == pre + Join(xs[1..]);
      OccursAfter(xs[i], pre, Join(xs[1..]), j);
      SubstringAt(xs[i], Join(xs), |pre| + j);
    }
  }

  /** An occurrence stays one, shifted, when a prefix is put in front. */
  lemma OccursAfter(needle: string, pre: string, hay: string, j: nat)
    requires OccursAt(needle, hay, j)
    ensures OccursAt(needle, pre + hay, |pre| + j)
  {
    assert (pre + hay)[|pre| + j..|pre| + j + |needle|] == hay[j..j + |needle|];
  }

  // ---------------------------------------------------------------------------
  // `needle in hay` on strings

  predicate StartsWith(s: string, prefix: string)
  {
    |prefix| <= |s| && s[..|prefix|] == prefix
  }

  /** Python's `needle in hay` for strings, and SQL's `hay LIKE '%needle%'`
      when the needle holds no wildcard. */
  predicate IsSubstring(needle: string, hay: string)
    decreases |hay|
  {
    StartsWith(hay, needle) || (|hay| > 0 && IsSubstring(needle, hay[1..]))
  }

  /** The needle occurs in hay starting at offset i. */
  predicate OccursAt(needle: string, hay: string, i: nat)
  {
    i + |needle| <= |hay| && hay[i..i + |needle|] == needle
  }

  lemma {:induction false} SubstringAt(needle: string, hay: string, i: nat)
    requires OccursAt(needle, hay, i)
    ensures IsSubstring(needle, hay)
  {
    if i > 0 {
      assert OccursAt(needle, hay[1..], i - 1) by {
        assert hay[1..][i - 1..i - 1 + |needle|] == hay[i..i + |needle|];
      }
      SubstringAt(needle, hay[1..], i - 1);
    }
  }

  /** `needle in hay` holds exactly when the needle occurs at some offset. */
  lemma {:induction false} SubstringOffset(needle: string, hay: string)
    requires IsSubstring(needle, hay)
    ensures exists i: nat :: OccursAt(needle, hay, i)
  {
    if StartsWith(hay, needle) {
      assert OccursAt(needle, hay, 0);
    } else {
      SubstringOffset(needle, hay[1..]);
      var i: nat :| OccursAt(needle, hay[1..], i);
      assert hay[1..][i..i + |needle|] == hay[i + 1..i + 1 + |needle|];
      assert OccursAt(needle, hay, i + 1);
    }
  }

  /** The three parts of a concatenation are its slices. */
  lemma ConcatSlices<T>(a: seq<T>, b: seq<T>, c: seq<T>)
    ensures (a + b + c)[..|a|] == a
    ensures (a + b + c)[|a|..|a| + |b|] == b
    ensures (a + b + c)[|a| + |b|..] == c
  {
  }

  /** A concatenation starts with its first part and contains its middle one. */
  lemma InfixIsSubstring(a: string, b: string, c: string)
    ensures StartsWith(a + b + c, a) && IsSubstring(b, a + b + c)
  {
    ConcatSlices(a, b, c);
    SubstringAt(b, a + b + c, |a|);
  }

  // ---------------------------------------------------------------------------
  // str(int) and int(text)

  predicate IsDigit(c: char) { '0' <= c <= '9' }

  function DigitChar(d: nat): (c: char)
    requires d < 10
    ensures IsDigit(c)
  {
    (48 + d) as char
  }

  function DigitValue(c: char): nat
    requires IsDigit(c)
  {
    c as int - 48
  }

  predicate AllDigits(s: string)
  {
    forall i :: 0 <= i < |s| ==> IsDigit(s[i])
  }

  /** `str(n)` for n >= 0: decimal digits, most significant first, no leading zero. */
  function NatToString(n: nat): (r: string)
    ensures |r| >= 1 && AllDigits(r)
    decreases n
  {
    if n < 10 then [DigitChar(n)] else NatToString(n / 10) + [DigitChar(n % 10)]
  }

  /** Python's `str(n)` for an integer. */
  function IntToString(n: int): (r: string)
    ensures |r| >= 1 && Comma !in r
  {
    if n < 0 then "-" + NatToString(-n) else NatToString(n)
  }

  /** The value of a run of decimal digits. */
  function DigitsValue(s: string): nat
    requires AllDigits(s)
    decreases |s|
  {
    if s == [] then 0 else DigitsValue(s[..|s| - 1]) * 10 + DigitValue(s[|s| - 1])
  }

  /** Python's `int(text)` on a decimal literal: surrounding whitespace, an
      optional sign and one or more ASCII digits; anything else is a ValueError,
      modelled as None. */
  function ParseInt(text: string): Option<int>
  {
    ParseLiteral(Strip(text))
  }

  /** An optional sign followed by one or more digits, with nothing around it. */
  function ParseLiteral(t: string): Option<int>
  {
    if |t| > 0 && (t[0] == '-' || t[0] == '+') then
      var d := t[1..];
      if |d| > 0 && AllDigits(d) then
        var v: int := DigitsValue(d);
        Some(if t[0] == '-' then -v else v)
      else None
    else if |t| > 0 && AllDigits(t) then Some(DigitsValue(t))
    else None
  }

  lemma {:induction false} DigitsOfNat(n: nat)
    ensures DigitsValue(NatToString(n)) == n
    decreases n
  {
    var s := NatToString(n);
    if n >= 10 {
      DigitsOfNat(n / 10);
      assert s[..|s| - 1] == NatToString(n / 10);
    }
  }

  lemma StripDigitsOrSign(s: string)
    requires |s| >= 1 && forall i :: 0 <= i < |s| ==> IsDigit(s[i]) || s[i] == '-'
    ensures Strip(s) == s
  {
    assert !IsSpace(s[0]) && !IsSpace(s[|s| - 1]);
  }

  /** `int(str(n)) == n`. */
  lemma ParseIntToString(n: int)
    ensures ParseInt(IntToString(n)) == Some(n)
  {
    StripDigitsOrSign(IntToString(n));
    ParseLiteralOfInt(n);
  }

  lemma ParseLiteralOfInt(n: int)
    ensures ParseLiteral(IntToString(n)) == Some(n)
  {
    var s := IntToString(n);
    if n < 0 {
      var d := NatToString(-n);
      assert s == "-" + d && s[1..] == d;
      DigitsOfNat(-n);
      assert ParseLiteral(s) == Some(n);
    } else {
      DigitsOfNat(n);
      assert ParseLiteral(s) == Some(n);
    }
  }

  /** Distinct integers have distinct decimal texts, so comparing ids as
      strings is comparing them as integers. */
  lemma IntToStringInjective(a: int, b: int)
    ensures IntToString(a) == IntToString(b) <==> a == b
  {
    if IntToString(a) == IntToString(b) {
      ParseIntToString(a);
      ParseIntToString(b);
    }
  }

  // ---------------------------------------------------------------------------
  // strip() and lower()

  /** The characters Python's `str.isspace` accepts. */
  predicate IsSpace(c: char)
  {
    (9 <= c as int <= 13) || (28 <= c as int <= 32) || c as int == 0x85 || c as int == 0xA0
    || c as int == 0x1680 || (0x2000 <= c as int <= 0x200A) || c as int == 0x2028
    || c as int == 0x2029 || c as int == 0x202F || c as int == 0x205F || c as int == 0x3000
  }

  function TrimStart(s: string): (r: string)
    ensures |r| <= |s| && r == s[|s| - |r|..]
    ensures r == [] || !IsSpace(r[0])
  {
    if s != [] && IsSpace(s[0]) then TrimStart(s[1..]) else s
  }

  function TrimEnd(s: string): (r: string)
    ensures |r| <= |s| && r == s[..|r|]
    ensures r == [] || !IsSpace(r[|r| - 1])
  {
    if s != [] && IsSpace(s[|s| - 1]) then TrimEnd(s[..|s| - 1]) else s
  }

  /** Python's `s.strip()`: a slice of s with no whitespace at either end. */
  function Strip(s: string): (r: string)
    ensures r == [] || (!IsSpace(r[0]) && !IsSpace(r[|r| - 1]))
    ensures exists i, j :: 0 <= i <= j <= |s| && r == s[i..j]
  {
    var t := TrimStart(s);
    var r := TrimEnd(t);
    assert r == s[|s| - |t|..|s| - |t| + |r|];
    r
  }

  /** Python's `c.lower()` on ASCII and the Cyrillic capitals U+0400..U+042F. */
  function LowerChar(c: char): (r: char)
    ensures r == c || ('A' <= c <= 'Z') || (0x400 <= c as int <= 0x42F)
  {
    if 'A' <= c <= 'Z' then (c as int + 32) as char
    else if 0x410 <= c as int <= 0x42F then (c as int + 32) as char
    else if 0x400 <= c as int <= 0x40F then (c as int + 80) as char
    else c
  }

  function Lower(s: string): (r: string)
    ensures |r| == |s|
    ensures forall i :: 0 <= i < |s| ==> r[i] == LowerChar(s[i])
  {
    seq(|s|, i requires 0 <= i < |s| => LowerChar(s[i]))
  }

  /** Lower-casing twice is lower-casing once. */
  lemma LowerIdempotent(s: string)
    ensures Lower(Lower(s)) == Lower(s)
  {
    forall i | 0 <= i < |s|
      ensures LowerChar(LowerChar(s[i])) == LowerChar(s[i])
    {
    }
  }

  // ---------------------------------------------------------------------------
  // Code-point order of strings, as Python's `sorted` compares them

  predicate StrLt(a: string, b: string)
    decreases |a|
  {
    if |a| == 0 then |b| > 0
    else if |b| == 0 then false
    else if a[0] != b[0] then a[0] < b[0]
    else StrLt(a[1..], b[1..])
  }

  lemma {:induction false} StrLtIrreflexive(a: string)
    ensures !StrLt(a, a)
  {
    if |a| > 0 { StrLtIrreflexive(a[1..]); }
  }

  lemma {:induction false} StrLtTransitive(a: string, b: string, c: string)
    requires StrLt(a, b) && StrLt(b, c)
    ensures StrLt(a, c)
    decreases |a|
  {
    if |a| > 0 && |b| > 0 && |c| > 0 && a[0] == b[0] && b[0] == c[0] {
      StrLtTransitive(a[1..], b[1..], c[1..]);
    }
  }

  lemma {:induction false} StrLtTotal(a: string, b: string)
    requires a != b
    ensures StrLt(a, b) || StrLt(b, a)
    decreases |a|
  {
    if |a| > 0 && |b| > 0 && a[0] == b[0] {
      assert a == [a[0]] + a[1..] && b == [b[0]] + b[1..];
      StrLtTotal(a[1..], b[1..]);
    }
  }

  lemma StrLtAsymmetric(a: string, b: string)
    requires StrLt(a, b)
    ensures !StrLt(b, a)
  {
    if StrLt(b, a) {
      StrLtTransitive(a, b, a);
      StrLtIrreflexive(a);
    }
  }

  predicate StrictlySorted(xs: seq<string>)
  {
    forall i, j :: 0 <= i < j < |xs| ==> StrLt(xs[i], xs[j])
  }

  /** Insert x into a strictly sorted list, unless it is already there. */
  function InsertUnique(x: string, xs: seq<string>): (r: seq<string>)
    requires StrictlySorted(xs)
    ensures StrictlySorted(r)
    ensures forall y :: y in r <==> y in xs || y == x
  {
    if xs == [] then [x]
    else if x == xs[0] then xs
    else if StrLt(x, xs[0]) then
      var r := [x] + xs;
      forall i, j | 0 <= i < j < |r| ensures StrLt(r[i], r[j]) {
        if i == 0 && j > 1 { StrLtTransitive(x, xs[0], xs[j - 1]); }
      }
      r
    else
      StrLtTotal(x, xs[0]);
      var tail := InsertUnique(x, xs[1..]);
      var r := [xs[0]] + tail;
      forall i, j | 0 <= i < j < |r| ensures StrLt(r[i], r[j]) {
        if i == 0 {
          if r[j] != x {
            assert r[j] in xs[1..];
            var k :| 1 <= k < |xs| && xs[k] == r[j];
          }
        }
      }
      r
  }

  /** `sorted(set(xs))`: the distinct items of xs in increasing order. */
  function SortedUnique(xs: seq<string>): (r: seq<string>)
    ensures StrictlySorted(r)
    ensures forall y :: y in r <==> y in xs
  {
    if xs == [] then []
    else
      var r := InsertUnique(xs[|xs| - 1], SortedUnique(xs[..|xs| - 1]));
      assert xs == xs[..|xs| - 1] + [xs[|xs| - 1]];
      r
  }

  /** A strictly sorted list is determined by its set of items. */
  lemma {:induction false} StrictlySortedUnique(a: seq<string>, b: seq<string>)
    requires StrictlySorted(a) && StrictlySorted(b)
    requires forall y :: y in a <==> y in b
    ensures a == b
  {
    assert a != [] ==> a[0] in b;
    assert b != [] ==> b[0] in a;
    if a != [] && b != [] {
      if a[0] != b[0] {
        assert a[0] in b;
        var k :| 0 <= k < |b| && b[k] == a[0];
        assert b[0] in a;
        var m :| 0 <= m < |a| && a[m] == b[0];
        assert StrLt(b[0], a[0]) && StrLt(a[0], b[0]);
        StrLtAsymmetric(b[0], a[0]);
      }
      forall y ensures y in a[1..] <==> y in b[1..] {
        if y in a[1..] {
          var i :| 1 <= i < |a| && a[i] == y;
          assert StrLt(a[0], a[i]);
          StrLtIrreflexive(y);
          assert y in a && y in b;
          var k :| 0 <= k < |b| && b[k] == y;
          assert k != 0 && b[1..][k - 1] == y;
        }
        if y in b[1..] {
          var i :| 1 <= i < |b| && b[i] == y;
          assert StrLt(b[0], b[i]);
          StrLtIrreflexive(y);
          assert y in b && y in a;
          var k :| 0 <= k < |a| && a[k] == y;
          assert k != 0 && a[1..][k - 1] == y;
        }
      }
      StrictlySortedUnique(a[1..], b[1..]);
      assert a == [a[0]] + a[1..] && b == [b[0]] + b[1..];
    }
  }

  /** Zero-padded two-digit text, Python's `f"{n:02d}"` for 0 <= n < 100. */
  function Pad2(n: nat): (r: string)
    requires n < 100
    ensures |r| == 2 && AllDigits(r) && DigitsValue(r) == n
  {
    var r := [DigitChar(n / 10), DigitChar(n % 10)];
    assert r[..1] == [DigitChar(n / 10)] && r[..1][..0] == [];
    assert DigitsValue(r[..1]) == n / 10;
    r
  }
}
