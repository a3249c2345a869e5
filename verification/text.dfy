/**
 The string operations the name prompt relies on: splitting on a separator,
 trimming whitespace from both ends, and writing a number in decimal.
 Strings are sequences of code points.
 */
module Text {

  /**
   The characters a bare strip() removes: the code points that count as
   whitespace for str.isspace(). These are the ASCII controls \t \n \v \f \r,
   the separators 0x1C..0x1F, the space, and the Unicode spaces and line
   breaks.
   */
  const Whitespace: set<char> := {
    '\t', '\n', '\U{0B}', '\U{0C}', '\r',
    '\U{1C}', '\U{1D}', '\U{1E}', '\U{1F}',
    ' ', '\U{85}', '\U{A0}', '\U{1680}',
    '\U{2000}', '\U{2001}', '\U{2002}', '\U{2003}', '\U{2004}', '\U{2005}',
    '\U{2006}', '\U{2007}', '\U{2008}', '\U{2009}', '\U{200A}',
    '\U{2028}', '\U{2029}', '\U{202F}', '\U{205F}', '\U{3000}'
  }

  predicate IsSpace(ch: char) {
    ch in Whitespace
  }

  /** Every character of `s` from index `lo` up to (not including) `hi` is whitespace. */
  predicate SpaceBetween(s: string, lo: int, hi: int)
    requires 0 <= lo <= hi <= |s|
  {
    forall k :: lo <= k < hi ==> IsSpace(s[k])
  }

  predicate AllSpace(s: string) {
    SpaceBetween(s, 0, |s|)
  }

  /** A string with no whitespace at either end. */
  predicate Trimmed(s: string) {
    s == [] || (!IsSpace(s[0]) && !IsSpace(s[|s| - 1]))
  }

  // ---------------------------------------------------------------------------
  // Splitting

  /**
   Splits `s` at every occurrence of `sep`, keeping empty fields: the empty
   string gives one empty field and n separators give n + 1 fields.
   */
  function Split(s: string, sep: char): (fields: seq<string>)
    ensures |fields| == Count(s, sep) + 1
    ensures forall i :: 0 <= i < |fields| ==> sep !in fields[i]
    decreases |s|
  {
    if s == [] then [[]]
    else
      var rest := Split(s[1..], sep);
      if s[0] == sep then [[]] + rest
      else [[s[0]] + rest[0]] + rest[1..]
  }

  /** The number of occurrences of `c` in `s`. */
  function Count(s: string, c: char): nat {
    if s == [] then 0 else (if s[0] == c then 1 else 0) + Count(s[1..], c)
  }

  /** Joins `fields` with `sep` between neighbours: the inverse of `Split`. */
  function Join(fields: seq<string>, sep: char): string
    requires |fields| >= 1
  {
    if |fields| == 1 then fields[0] else fields[0] + [sep] + Join(fields[1..], sep)
  }

  /** Joining the fields back together gives the original string. */
  lemma {:induction false} JoinSplit(s: string, sep: char)
    ensures Join(Split(s, sep), sep) == s
    decreases |s|
  {
    if s != [] {
      var rest := Split(s[1..], sep);
      JoinSplit(s[1..], sep);
      if s[0] == sep {
        assert s == [sep] + s[1..];
      } else if |rest| == 1 {
        assert s == [s[0]] + s[1..];
      } else {
        assert Join(rest, sep) == rest[0] + [sep] + Join(rest[1..], sep);
        assert s == [s[0]] + s[1..];
      }
    }
  }

  /** Fields free of the separator survive a join and a split unchanged. */
  lemma {:induction false} SplitJoin(fields: seq<string>, sep: char)
    requires |fields| >= 1
    requires forall i :: 0 <= i < |fields| ==> sep !in fields[i]
    ensures Split(Join(fields, sep), sep) == fields
    decreases |fields|, |fields[0]|
  {
    var f := fields[0];
    if f == [] {
      if |fields| > 1 {
        var tail := Join(fields[1..], sep);
        assert Join(fields, sep) == [sep] + tail;
        SplitJoin(fields[1..], sep);
        assert ([sep] + tail)[1..] == tail;
        assert fields == [[]] + fields[1..];
      }
    } else {
      var shorter := fields[0 := f[1..]];
      assert sep !in f[1..] by {
        forall i | 0 <= i < |f[1..]| ensures f[1..][i] != sep {
          assert f[1..][i] == f[i + 1];
        }
      }
      assert forall i :: 0 <= i < |shorter| ==> sep !in shorter[i];
      SplitJoin(shorter, sep);
      var j := Join(fields, sep);
      var js := Join(shorter, sep);
      if |fields| == 1 {
        assert j == [f[0]] + js;
      } else {
        assert shorter[1..] == fields[1..];
        assert j == [f[0]] + js;
      }
      assert j[0] == f[0] && j[0] != sep;
      assert j[1..] == js;
      assert [f[0]] + f[1..] == f;
      assert fields == [f] + fields[1..];
    }
  }

  // ---------------------------------------------------------------------------
  // Trimming

  /** `s` without its leading whitespace. */
  function TrimLeft(s: string): (r: string)
    ensures |r| <= |s| && r == s[|s| - |r|..]
    ensures SpaceBetween(s, 0, |s| - |r|)
    ensures r == [] || !IsSpace(r[0])
    decreases |s|
  {
    if s != [] && IsSpace(s[0]) then TrimLeft(s[1..]) else s
  }

  /** `s` without its trailing whitespace. */
  function TrimRight(s: string): (r: string)
    ensures |r| <= |s| && r == s[..|r|]
    ensures SpaceBetween(s, |r|, |s|)
    ensures r == [] || !IsSpace(r[|r| - 1])
    decreases |s|
  {
    if s != [] && IsSpace(s[|s| - 1]) then TrimRight(s[..|s| - 1]) else s
  }

  /**
   strip() with no argument: `s` without whitespace at either end. The result
   is the middle of `s` once a whitespace prefix and a whitespace suffix are
   cut off, and it starts and ends with something other than whitespace.
   */
  function Strip(s: string): (r: string)
    ensures Trimmed(r)
    ensures exists i, j :: 0 <= i <= j <= |s| && r == s[i..j] && SpaceBetween(s, 0, i) && SpaceBetween(s, j, |s|)
  {
    var left := TrimLeft(s);
    var r := TrimRight(left);
    StripIsSlice(s, left, r);
    StripEndsTrimmed(left, r);
    r
  }

  /**
   Cutting a whitespace prefix off `s` and then a whitespace suffix off the
   rest leaves the slice of `s` between a whitespace prefix and a whitespace
   suffix.
   */
  lemma StripIsSlice(s: string, left: string, r: string)
    requires |left| <= |s| && left == s[|s| - |left|..] && SpaceBetween(s, 0, |s| - |left|)
    requires |r| <= |left| && r == left[..|r|] && SpaceBetween(left, |r|, |left|)
    ensures var i := |s| - |left|;
      && i + |r| <= |s| && r == s[i..i + |r|]
      && SpaceBetween(s, 0, i) && SpaceBetween(s, i + |r|, |s|)
  {
    var i := |s| - |left|;
    var j := i + |r|;
    forall k | j <= k < |s|
      ensures IsSpace(s[k])
    {
      assert s[k] == left[k - i];
    }
  }

  /** Trimming the right end of a string that starts with something other than whitespace keeps that start. */
  lemma StripEndsTrimmed(left: string, r: string)
    requires left == [] || !IsSpace(left[0])
    requires r == TrimRight(left)
    ensures Trimmed(r)
  {
    if r != [] {
      assert r[0] == left[0];
    }
  }

  /** Stripping a second time changes nothing. */
  lemma StripIdempotent(s: string)
    ensures Strip(Strip(s)) == Strip(s)
  {
    TrimmedStripsToItself(Strip(s));
  }

  /** A string with no whitespace at either end is its own strip. */
  lemma TrimmedStripsToItself(s: string)
    requires Trimmed(s)
    ensures Strip(s) == s
  {
  }

  /** Strip removes only whitespace: a stripped string is empty exactly when `s` was all whitespace. */
  lemma StripEmptyIff(s: string)
    ensures Strip(s) == [] <==> AllSpace(s)
  {
  }

  // ---------------------------------------------------------------------------
  // Decimal numbers

  predicate IsDigit(ch: char) {
    '0' <= ch <= '9'
  }

  function DigitChar(d: int): (ch: char)
    requires 0 <= d < 10
    ensures IsDigit(ch)
  {
    ['0', '1', '2', '3', '4', '5', '6', '7', '8', '9'][d]
  }

  function DigitValue(ch: char): int
    requires IsDigit(ch)
  {
    (ch - '0') as int
  }

  /** `n` written in decimal, as Python's str() writes a non-negative int. */
  function NatToString(n: nat): (s: string)
    ensures s != []
    ensures forall i :: 0 <= i < |s| ==> IsDigit(s[i])
    ensures s[0] != '0' || n == 0
    ensures !IsSpace(s[0]) && !IsSpace(s[|s| - 1])
  {
    if n < 10 then [DigitChar(n)] else NatToString(n / 10) + [DigitChar(n % 10)]
  }

  /** The value of a string of decimal digits. */
  function ParseDigits(s: string): nat
    requires forall i :: 0 <= i < |s| ==> IsDigit(s[i])
  {
    if s == [] then 0 else 10 * ParseDigits(s[..|s| - 1]) + DigitValue(s[|s| - 1])
  }

  /** Reading back the decimal form gives the number. */
  lemma {:induction false} ParseNatToString(n: nat)
    ensures ParseDigits(NatToString(n)) == n
  {
    var s := NatToString(n);
    if n >= 10 {
      ParseNatToString(n / 10);
      assert s[..|s| - 1] == NatToString(n / 10);
    }
  }

  /** Distinct numbers are written differently. */
  lemma NatToStringInjective(m: nat, n: nat)
    requires NatToString(m) == NatToString(n)
    ensures m == n
  {
    ParseNatToString(m);
    ParseNatToString(n);
  }
}
