/** Bytes, characters and the handful of Python `str`/`bytes` operations the
    write/verify pipeline and the directory watcher rely on. */
module Text {

  /** One octet of an image file or of a block device. */
  newtype byte = b: int | 0 <= b < 256

  datatype Option<T> = None | Some(value: T)

  function Min(a: int, b: int): int { if a <= b then a else b }

  // ---------------------------------------------------------------------------
  // Substrings: Python's `needle in s`, `s.endswith(t)`
  // ---------------------------------------------------------------------------

  /** `needle` occurs in `s` starting at index `i`. */
  predicate OccursAt<T(==)>(s: seq<T>, needle: seq<T>, i: nat) {
    i + |needle| <= |s| && s[i..i + |needle|] == needle
  }

  /** Python's `needle in s` on `str` and on `bytes`. */
  function Contains<T(==)>(s: seq<T>, needle: seq<T>): (r: bool)
    ensures r <==> exists i: nat :: OccursAt(s, needle, i)
    decreases |s|
  {
    if |needle| > |s| then
      false
    else if s[..|needle|] == needle then
      assert OccursAt(s, needle, 0);
      true
    else
      var rest := Contains(s[1..], needle);
      assert forall i: nat :: OccursAt(s[1..], needle, i) ==> OccursAt(s, needle, i + 1) by {
        forall i: nat | OccursAt(s[1..], needle, i) ensures OccursAt(s, needle, i + 1) {
          assert s[i + 1..i + 1 + |needle|] == s[1..][i..i + |needle|];
        }
      }
      assert forall i: nat :: OccursAt(s, needle, i) ==> i > 0 && OccursAt(s[1..], needle, i - 1) by {
        forall i: nat | OccursAt(s, needle, i) ensures i > 0 && OccursAt(s[1..], needle, i - 1) {
          assert s[1..][i - 1..i - 1 + |needle|] == s[i..i + |needle|];
        }
      }
      rest
  }

  /** An occurrence inside an occurrence is an occurrence: `Contains` is transitive. */
  lemma {:induction false} ContainsTransitive<T>(s: seq<T>, mid: seq<T>, needle: seq<T>)
    requires Contains(s, mid) && Contains(mid, needle)
    ensures Contains(s, needle)
  {
    var i: nat :| OccursAt(s, mid, i);
    var j: nat :| OccursAt(mid, needle, j);
    assert s[i..i + |mid|] == mid;
    forall k | 0 <= k < |needle| ensures s[i + j + k] == needle[k] {
      assert s[i + j + k] == s[i..i + |mid|][j + k];
      assert mid[j + k] == mid[j..j + |needle|][k];
    }
    assert s[i + j..i + j + |needle|] == needle;
    assert OccursAt(s, needle, i + j);
  }

  /** Python's `s.endswith(suffix)`. */
  predicate EndsWith<T(==)>(s: seq<T>, suffix: seq<T>) {
    |suffix| <= |s| && s[|s| - |suffix|..] == suffix
  }

  // ---------------------------------------------------------------------------
  // Case folding: `str.lower()` on the ASCII letters
  // ---------------------------------------------------------------------------

  function LowerChar(c: char): char {
    if 'A' <= c <= 'Z' then (c as int - 'A' as int + 'a' as int) as char else c
  }

  function Lower(s: string): (r: string)
    ensures |r| == |s|
    ensures forall i :: 0 <= i < |s| ==> r[i] == LowerChar(s[i])
  {
    seq(|s|, i requires 0 <= i < |s| => LowerChar(s[i]))
  }

  /** Lowering commutes with taking a slice. */
  lemma LowerSlice(s: string, i: nat, j: nat)
    requires i <= j <= |s|
    ensures Lower(s)[i..j] == Lower(s[i..j])
  {
  }

  /** An occurrence of `w` in `s` survives lowering both sides. */
  lemma {:induction false} LowerContains(s: string, w: string)
    requires Contains(s, w)
    ensures Contains(Lower(s), Lower(w))
  {
    var i: nat :| OccursAt(s, w, i);
    LowerSlice(s, i, i + |w|);
    assert OccursAt(Lower(s), Lower(w), i);
  }

  // ---------------------------------------------------------------------------
  // Whitespace, strip and split
  // ---------------------------------------------------------------------------

  /** Python's `str.isspace()` on one character (the characters `str.split()`
      and `str.strip()` treat as whitespace). */
  predicate IsSpace(c: char) {
    c == ' ' || '\t' <= c <= '\r' || '\U{1c}' <= c <= '\U{1f}' || c == '\U{85}' || c == '\U{a0}'
    || c == '\U{1680}' || '\U{2000}' <= c <= '\U{200a}' || c == '\U{2028}' || c == '\U{2029}'
    || c == '\U{202f}' || c == '\U{205f}' || c == '\U{3000}'
  }

  /** `s` with the leading whitespace removed. */
  function TrimLeft(s: string): (r: string)
    ensures |r| <= |s| && r == s[|s| - |r|..]
    ensures forall k :: 0 <= k < |s| - |r| ==> IsSpace(s[k])
    ensures r != [] ==> !IsSpace(r[0])
    decreases |s|
  {
    if s != [] && IsSpace(s[0]) then TrimLeft(s[1..]) else s
  }

  /** `s` with the trailing whitespace removed. */
  function TrimRight(s: string): (r: string)
    ensures |r| <= |s| && r == s[..|r|]
    ensures forall k :: |r| <= k < |s| ==> IsSpace(s[k])
    ensures r != [] ==> !IsSpace(r[|r| - 1])
    decreases |s|
  {
    if s != [] && IsSpace(s[|s| - 1]) then TrimRight(s[..|s| - 1]) else s
  }

  /** Python's `s.strip()`: `s[i..j]` for the largest `i` and smallest `j`
      such that everything outside is whitespace. */
  function Strip(s: string): (r: string)
    ensures exists i, j :: 0 <= i <= j <= |s| && r == s[i..j]
                           && (forall k :: 0 <= k < i ==> IsSpace(s[k]))
                           && (forall k :: j <= k < |s| ==> IsSpace(s[k]))
    ensures r != [] ==> !IsSpace(r[0]) && !IsSpace(r[|r| - 1])
  {
    var l := TrimLeft(s);
    var r := TrimRight(l);
    var i := |s| - |l|;
    assert r == s[i..i + |r|];
    r
  }

  /** Python's `s.split(sep)` for a one-character separator. */
  function Split(s: string, sep: char): (r: seq<string>)
    ensures |r| > 0
    ensures forall k :: 0 <= k < |r| ==> sep !in r[k]
    decreases |s|
  {
    if |s| == 0 then
      [""]
    else
      var rest := Split(s[1..], sep);
      if s[0] == sep then [""] + rest else [[s[0]] + rest[0]] + rest[1..]
  }

  /** Joining the pieces of `Split` with the separator gives back the string. */
  lemma {:induction false} JoinSplit(s: string, sep: char)
    ensures Join(Split(s, sep), sep) == s
    decreases |s|
  {
    if |s| > 0 {
      JoinSplit(s[1..], sep);
      var rest := Split(s[1..], sep);
      if s[0] == sep {
        assert Split(s, sep) == [""] + rest;
        assert Join([""] + rest, sep) == [sep] + Join(rest, sep);
      } else if |rest| == 1 {
        assert Split(s, sep) == [[s[0]] + rest[0]];
      } else {
        var r := Split(s, sep);
        assert r[1..] == rest[1..];
        assert Join(rest, sep) == rest[0] + [sep] + Join(rest[1..], sep);
        assert Join(r, sep) == [s[0]] + rest[0] + [sep] + Join(rest[1..], sep);
      }
      assert s == [s[0]] + s[1..];
    }
  }

  /** `s.split(sep)` has more than one piece iff `sep` occurs in `s`. */
  lemma {:induction false} SplitCount(s: string, sep: char)
    ensures |Split(s, sep)| >= 2 <==> sep in s
    decreases |s|
  {
    if s != [] {
      SplitCount(s[1..], sep);
      assert sep in s <==> s[0] == sep || sep in s[1..];
    }
  }

  /** `a` is `b` with some elements left out and the rest in their order. */
  predicate Subsequence<T(==)>(a: seq<T>, b: seq<T>)
    decreases |b|
  {
    if a == [] then true
    else if b == [] then false
    else if a[0] == b[0] then Subsequence(a[1..], b[1..])
    else Subsequence(a, b[1..])
  }

  /** An element appended to the longer sequence only may be left out. */
  lemma {:induction false} SubsequenceSkipLast<T>(a: seq<T>, b: seq<T>, x: T)
    requires Subsequence(a, b)
    ensures Subsequence(a, b + [x])
    decreases |b|
  {
    if a != [] {
      assert (b + [x])[0] == b[0] && (b + [x])[1..] == b[1..] + [x];
      if a[0] != b[0] {
        SubsequenceSkipLast(a, b[1..], x);
      } else {
        SubsequenceSkipLast(a[1..], b[1..], x);
      }
    }
  }

  /** An element appended to both sequences may be kept. */
  lemma {:induction false} SubsequenceKeepLast<T>(a: seq<T>, b: seq<T>, x: T)
    requires Subsequence(a, b)
    ensures Subsequence(a + [x], b + [x])
    decreases |b|
  {
    if b == [] {
      assert a == [] && a + [x] == [x] && b + [x] == [x];
      assert [x][1..] == [];
    } else {
      assert (b + [x])[0] == b[0] && (b + [x])[1..] == b[1..] + [x];
      if a == [] {
        if x == b[0] {
          assert (a + [x])[1..] == [];
        } else {
          SubsequenceKeepLast(a, b[1..], x);
        }
      } else {
        assert (a + [x])[0] == a[0] && (a + [x])[1..] == a[1..] + [x];
        if a[0] != b[0] {
          SubsequenceKeepLast(a, b[1..], x);
        } else {
          SubsequenceKeepLast(a[1..], b[1..], x);
        }
      }
    }
  }

  /** Python's `sep.join(pieces)`: the inverse of `Split`. */
  function Join(pieces: seq<string>, sep: char): string {
    if |pieces| == 0 then ""
    else if |pieces| == 1 then pieces[0]
    else pieces[0] + [sep] + Join(pieces[1..], sep)
  }

  /** The longest prefix of `s` without whitespace. */
  function LeadingWord(s: string): (r: string)
    ensures r <= s
    ensures forall k :: 0 <= k < |r| ==> !IsSpace(r[k])
    ensures |r| < |s| ==> IsSpace(s[|r|])
    decreases |s|
  {
    if s == [] || IsSpace(s[0]) then "" else [s[0]] + LeadingWord(s[1..])
  }

  /** Python's `s.split()` with no argument: the maximal runs of non-whitespace. */
  function Words(s: string): (r: seq<string>)
    ensures forall k :: 0 <= k < |r| ==> r[k] != "" && forall m :: 0 <= m < |r[k]| ==> !IsSpace(r[k][m])
    ensures (forall k :: 0 <= k < |s| ==> IsSpace(s[k])) <==> r == []
    decreases |s|
  {
    if s == [] then []
    else if IsSpace(s[0]) then Words(s[1..])
    else
      var w := LeadingWord(s);
      [w] + Words(s[|w|..])
  }

  /** Two sequences are equal iff they agree on the parts before and after `k`. */
  lemma SplitAt<T>(a: seq<T>, b: seq<T>, k: nat)
    requires k <= |a| && k <= |b|
    ensures a == b <==> |a| == |b| && a[..k] == b[..k] && a[k..] == b[k..]
  {
    if |a| == |b| && a[..k] == b[..k] && a[k..] == b[k..] {
      assert a == a[..k] + a[k..];
      assert b == b[..k] + b[k..];
    }
  }

  // ---------------------------------------------------------------------------
  // Decimal rendering: Python's `str(n)` / f-string on an int
  // ---------------------------------------------------------------------------

  predicate IsDigit(c: char) { '0' <= c <= '9' }

  predicate AllDigits(s: string) { forall k :: 0 <= k < |s| ==> IsDigit(s[k]) }

  function DigitChar(d: nat): (c: char)
    requires d < 10
    ensures IsDigit(c)
  {
    ('0' as int + d) as char
  }

  /** The decimal numeral of `n`, without leading zeros. */
  function NatToDecimal(n: nat): (r: string)
    ensures r != [] && AllDigits(r)
    ensures r[0] == '0' ==> n == 0 && r == "0"
    decreases n
  {
    if n < 10 then [DigitChar(n)] else NatToDecimal(n / 10) + [DigitChar(n % 10)]
  }

  /** The value of a decimal numeral. */
  function DecimalValue(s: string): nat
    requires AllDigits(s)
    decreases |s|
  {
    if s == [] then 0 else DecimalValue(s[..|s| - 1]) * 10 + (s[|s| - 1] as int - '0' as int)
  }

  /** Reading back a rendered numeral yields the number. */
  lemma {:induction false} DecimalRoundTrip(n: nat)
    ensures DecimalValue(NatToDecimal(n)) == n
    decreases n
  {
    if n >= 10 {
      DecimalRoundTrip(n / 10);
      var s := NatToDecimal(n);
      assert s[..|s| - 1] == NatToDecimal(n / 10);
    }
  }

  /** Python's `str(i)` on an int. */
  function IntToDecimal(i: int): (r: string)
    ensures i >= 0 ==> r == NatToDecimal(i)
    ensures i < 0 ==> r == "-" + NatToDecimal(-i)
  {
    if i < 0 then "-" + NatToDecimal(-i) else NatToDecimal(i)
  }

  // ---------------------------------------------------------------------------
  // Integer division facts
  // ---------------------------------------------------------------------------

  /** `x // d` by repeated subtraction. */
  function Quotient(x: nat, d: nat): nat
    requires d > 0
    decreases x
  {
    if x < d then 0 else 1 + Quotient(x - d, d)
  }

  /** `Quotient` is integer division on naturals. */
  lemma {:induction false} QuotientIsDiv(x: nat, d: nat)
    requires d > 0
    ensures Quotient(x, d) == x / d
    decreases x
  {
    if x < d {
      DivUnique(x, d, 0);
    } else {
      QuotientIsDiv(x - d, d);
      var q := (x - d) / d;
      assert q * d <= x - d < q * d + d by {
        assert q * d + (x - d) % d == x - d;
      }
      assert (q + 1) * d == q * d + d;
      DivUnique(x, d, q + 1);
    }
  }

  lemma MulMonotone(a: int, b: int, d: nat)
    ensures a <= b ==> a * d <= b * d
  {
  }

  /** `q` is the quotient of `x` by `d` when `x` lies in `[q*d, q*d + d)`. */
  lemma DivUnique(x: nat, d: nat, q: nat)
    requires d > 0 && q * d <= x < q * d + d
    ensures x / d == q
  {
    var p := x / d;
    assert p * d + x % d == x;
    assert (q + 1) * d == q * d + d;
    assert (p + 1) * d == p * d + d;
    MulMonotone(q + 1, p, d);
    MulMonotone(p + 1, q, d);
  }

  lemma DivMonotone(x: nat, y: nat, d: nat)
    requires x <= y && d > 0
    ensures x / d <= y / d
  {
    var px, py := x / d, y / d;
    assert px * d + x % d == x;
    assert py * d + y % d == y;
    assert (py + 1) * d == py * d + d;
    MulMonotone(py + 1, px, d);
  }

  // ---------------------------------------------------------------------------
  // Paths
  // ---------------------------------------------------------------------------

  /** `os.path.basename(p)` for POSIX paths: what follows the last `/`. */
  function Basename(p: string): (r: string)
    ensures '/' !in r
    ensures EndsWith(p, r)
    ensures |r| < |p| ==> p[|p| - |r| - 1] == '/'
    decreases |p|
  {
    if p == [] || p[|p| - 1] == '/' then "" else Basename(p[..|p| - 1]) + [p[|p| - 1]]
  }

  // ---------------------------------------------------------------------------
  // Python's repr of a string
  // ---------------------------------------------------------------------------

  /** A lower-case hexadecimal digit. */
  function HexChar(d: nat): char
    requires d < 16
  {
    if d < 10 then DigitChar(d) else ('a' as int + d - 10) as char
  }

  /** The value of a hexadecimal digit written by `HexChar`. */
  function HexValue(c: char): nat {
    if '0' <= c <= '9' then c as int - '0' as int
    else if 'a' <= c <= 'f' then c as int - 'a' as int + 10
    else 0
  }

  /** The quote `repr` puts around `s`: a double quote when `s` holds a single
      quote and no double quote, a single quote otherwise. */
  function ReprQuote(s: string): char {
    if '\'' in s && '"' !in s then '"' else '\''
  }

  /** One character as `repr` shows it between quotes `q`: backslash and `q`
      are escaped, tab, newline and carriage return get their letters, the
      other ASCII control characters and DEL become `\xhh`. */
  function ReprChar(c: char, q: char): (r: string)
    ensures 1 <= |r| <= 4
  {
    if c == '\\' then "\\\\"
    else if c == q then ['\\', q]
    else if c == '\t' then "\\t"
    else if c == '\n' then "\\n"
    else if c == '\r' then "\\r"
    else if c < ' ' || c as int == 0x7f then ['\\', 'x', HexChar(c as int / 16), HexChar(c as int % 16)]
    else [c]
  }

  function ReprBody(s: string, q: char): (r: string)
    ensures |r| >= |s|
  {
    if s == [] then [] else ReprChar(s[0], q) + ReprBody(s[1..], q)
  }

  /** Python's `repr(s)`, as `str(e)` of an `OSError` shows the file name. */
  function PyRepr(s: string): (r: string)
    ensures |r| >= |s| + 2
    ensures r[0] == r[|r| - 1] == ReprQuote(s)
    ensures r[1..|r| - 1] == ReprBody(s, ReprQuote(s))
  {
    var q := ReprQuote(s);
    [q] + ReprBody(s, q) + [q]
  }

  /** Reads the text between the quotes of a `repr` back, undoing the escapes
      `ReprChar` writes. */
  function Unescape(r: string): string
    decreases |r|
  {
    if r == [] then []
    else if r[0] == '\\' && |r| >= 4 && r[1] == 'x' then
      [(HexValue(r[2]) * 16 + HexValue(r[3])) as char] + Unescape(r[4..])
    else if r[0] == '\\' && |r| >= 2 then
      [if r[1] == 't' then '\t' else if r[1] == 'n' then '\n' else if r[1] == 'r' then '\r' else r[1]]
      + Unescape(r[2..])
    else [r[0]] + Unescape(r[1..])
  }

  /** One escaped character, followed by anything, reads back as itself. */
  lemma UnescapeChar(c: char, q: char, rest: string)
    requires q == '\'' || q == '"'
    ensures Unescape(ReprChar(c, q) + rest) == [c] + Unescape(rest)
  {
    var e := ReprChar(c, q);
    if c < ' ' || c as int == 0x7f {
      if c != '\t' && c != '\n' && c != '\r' {
        var hi, lo := c as int / 16, c as int % 16;
        assert e == ['\\', 'x', HexChar(hi), HexChar(lo)];
        assert HexValue(HexChar(hi)) == hi && HexValue(HexChar(lo)) == lo;
        assert (e + rest)[4..] == rest;
      } else {
        assert (e + rest)[2..] == rest;
      }
    } else if c == '\\' || c == q {
      assert (e + rest)[2..] == rest;
    } else {
      assert e == [c];
      assert (e + rest)[1..] == rest;
    }
  }

  lemma {:induction false} UnescapeBody(s: string, q: char)
    requires q == '\'' || q == '"'
    ensures Unescape(ReprBody(s, q)) == s
    decreases |s|
  {
    if s != [] {
      UnescapeBody(s[1..], q);
      UnescapeChar(s[0], q, ReprBody(s[1..], q));
    }
  }

  /** The file name can be read back from its `repr`: strip the quotes and
      undo the escapes. */
  lemma ReprRoundTrip(s: string)
    ensures var r := PyRepr(s); Unescape(r[1..|r| - 1]) == s
  {
    UnescapeBody(s, ReprQuote(s));
  }

  /** Different names have different `repr`s. */
  lemma ReprInjective(a: string, b: string)
    requires PyRepr(a) == PyRepr(b)
    ensures a == b
  {
    ReprRoundTrip(a);
    ReprRoundTrip(b);
  }

  /** A name free of quotes, backslashes and control characters is shown
      between single quotes, unchanged. */
  lemma {:induction false} ReprPlain(s: string)
    requires forall i :: 0 <= i < |s| ==>
               ' ' <= s[i] && s[i] as int != 0x7f && s[i] != '\\' && s[i] != '\'' && s[i] != '"'
    ensures PyRepr(s) == "'" + s + "'"
  {
    PlainBody(s, '\'');
  }

  /** Between quotes `q`, characters other than backslash, `q` and the
      control characters are shown as they are. */
  lemma {:induction false} PlainBody(s: string, q: char)
    requires forall i :: 0 <= i < |s| ==> ' ' <= s[i] && s[i] as int != 0x7f && s[i] != '\\' && s[i] != q
    ensures ReprBody(s, q) == s
    decreases |s|
  {
    if s != [] {
      PlainBody(s[1..], q);
      assert s == [s[0]] + s[1..];
    }
  }

  /** A name holding an apostrophe and no double quote is shown between
      double quotes, the apostrophe kept. */
  lemma ReprApostrophe(s: string)
    requires '\'' in s && '"' !in s
    requires forall i :: 0 <= i < |s| ==> ' ' <= s[i] && s[i] as int != 0x7f && s[i] != '\\'
    ensures PyRepr(s) == "\"" + s + "\""
  {
    PlainBody(s, '"');
  }
}
