/** The Option type used for "a number, or NaN" and "children, or enumeration threw". */
module Options {

  datatype Option<+T> = None | Some(value: T) {

    /** The wrapped value, or `default` when there is none. */
    function GetOr(default: T): T {
      match this
      case Some(v) => v
      case None => default
    }
  }
}

/**
  The JavaScript string built-ins that turn `pgrep -P` output into pids:
  `String.prototype.trim`, `String.prototype.split("\n")`, `Array.prototype.join("\n")`
  and `parseInt(s, 10)`. Strings are sequences of UTF-16 code units in JavaScript;
  here they are `seq<char>`, which agrees for every character the parser inspects.
 */
module Text {
  import opened Options

  /** The WhiteSpace and LineTerminator code points of ECMAScript: what `trim` strips
      and what `parseInt` skips before the number. */
  predicate IsSpace(c: char) {
    || c == '\t' || c == '\n' || c == '\U{000B}' || c == '\U{000C}' || c == '\r'
    || c == ' ' || c == '\U{00A0}' || c == '\U{1680}'
    || ('\U{2000}' <= c <= '\U{200A}')
    || c == '\U{2028}' || c == '\U{2029}' || c == '\U{202F}' || c == '\U{205F}'
    || c == '\U{3000}' || c == '\U{FEFF}'
  }

  predicate IsDigit(c: char) {
    '0' <= c <= '9'
  }

  predicate AllSpace(s: string) {
    forall k :: 0 <= k < |s| ==> IsSpace(s[k])
  }

  predicate AllDigits(s: string) {
    forall k :: 0 <= k < |s| ==> IsDigit(s[k])
  }

  /** Drops leading white space: the result is a suffix of `s` that does not start with
      white space, and everything dropped was white space. */
  function TrimStart(s: string): (r: string)
    ensures |r| <= |s| && r == s[|s| - |r|..]
    ensures AllSpace(s[..|s| - |r|])
    ensures |r| > 0 ==> !IsSpace(r[0])
  {
    if |s| > 0 && IsSpace(s[0]) then TrimStart(s[1..]) else s
  }

  /** Drops trailing white space: the result is a prefix of `s` that does not end with
      white space, and everything dropped was white space. */
  function TrimEnd(s: string): (r: string)
    ensures |r| <= |s| && r == s[..|r|]
    ensures AllSpace(s[|r|..])
    ensures |r| > 0 ==> !IsSpace(r[|r| - 1])
  {
    if |s| > 0 && IsSpace(s[|s| - 1]) then TrimEnd(s[..|s| - 1]) else s
  }

  /** `r` occurs in `s` starting at index `i`. */
  predicate InfixAt(s: string, i: int, r: string) {
    0 <= i <= |s| - |r| && r == s[i..i + |r|]
  }

  /** `String.prototype.trim`: the infix of `s` left once white space is stripped from
      both ends; it is empty exactly when `s` is all white space. */
  function Trim(s: string): (r: string)
    ensures exists i :: InfixAt(s, i, r)
    ensures |r| > 0 ==> !IsSpace(r[0]) && !IsSpace(r[|r| - 1])
    ensures r == [] <==> AllSpace(s)
  {
    var t := TrimStart(s);
    var r := TrimEnd(t);
    assert InfixAt(s, |s| - |t|, r);
    assert r == [] ==> AllSpace(s) by {
      if r == [] {
        assert AllSpace(t);
        forall k | 0 <= k < |s|
          ensures IsSpace(s[k])
        {
          if k < |s| - |t| {
            assert s[k] == s[..|s| - |t|][k];
          }
        }
      }
    }
    r
  }

  /** `r` occurs in `s` at index `i`, and everything before and after it is white space. */
  predicate StrippedAt(s: string, i: int, r: string) {
    InfixAt(s, i, r) && AllSpace(s[..i]) && AllSpace(s[i + |r|..])
  }

  /** What `trim` removes is white space: the result sits in `s` with only white space
      before and after it. */
  lemma TrimStripsSpace(s: string)
    ensures exists i :: StrippedAt(s, i, Trim(s))
  {
    var t := TrimStart(s);
    var r := TrimEnd(t);
    var i := |s| - |t|;
    assert Trim(s) == r;
    assert t == s[i..];
    assert r == t[..|r|];
    assert s[i..i + |r|] == r;
    assert s[i + |r|..] == t[|r|..];
    assert AllSpace(t[|r|..]);
    assert StrippedAt(s, i, r);
  }

  /** `Array.prototype.join("\n")`. */
  function Join(parts: seq<string>): string
  {
    if |parts| == 0 then ""
    else if |parts| == 1 then parts[0]
    else parts[0] + "\n" + Join(parts[1..])
  }

  lemma {:induction false} JoinExtendFirst(x: string, parts: seq<string>)
    requires |parts| >= 1
    ensures Join([x + parts[0]] + parts[1..]) == x + Join(parts)
  {
    var ps := [x + parts[0]] + parts[1..];
    if |parts| == 1 {
      assert ps == [x + parts[0]];
    } else {
      assert ps[0] == x + parts[0];
      assert ps[1..] == parts[1..];
      assert Join(ps) == ps[0] + "\n" + Join(parts[1..]);
      assert Join(parts) == parts[0] + "\n" + Join(parts[1..]);
      assert (x + parts[0]) + "\n" + Join(parts[1..]) == x + (parts[0] + "\n" + Join(parts[1..]));
    }
  }

  /** `String.prototype.split("\n")`: the newline-free pieces whose join is `s`. There is
      always at least one piece (the empty string splits into `[""]`). */
  function Split(s: string): (r: seq<string>)
    ensures |r| >= 1
    ensures forall i :: 0 <= i < |r| ==> '\n' !in r[i]
    ensures Join(r) == s
  {
    if |s| == 0 then [""]
    else
      var rest := Split(s[1..]);
      if s[0] == '\n' then
        assert [""] + rest == [""] + rest[..];
        [""] + rest
      else
        JoinExtendFirst([s[0]], rest);
        assert s == [s[0]] + s[1..];
        [[s[0]] + rest[0]] + rest[1..]
  }

  /** Splitting undoes joining newline-free pieces. */
  lemma {:induction false} SplitJoin(parts: seq<string>)
    requires |parts| >= 1
    requires forall i :: 0 <= i < |parts| ==> '\n' !in parts[i]
    ensures Split(Join(parts)) == parts
  {
    if |parts| == 1 {
      SplitNoNewline(parts[0]);
    } else {
      var tail := Join(parts[1..]);
      assert Join(parts) == parts[0] + ("\n" + tail);
      SplitJoin(parts[1..]);
      SplitNewline(tail);
      SplitPrefix(parts[0], "\n" + tail);
      assert parts[0] + "" == parts[0];
      assert parts == [parts[0]] + parts[1..];
    }
  }

  lemma SplitNewline(rest: string)
    ensures Split("\n" + rest) == [""] + Split(rest)
  {
    var s := "\n" + rest;
    assert s[0] == '\n';
    assert s[1..] == rest;
  }

  lemma {:induction false} SplitNoNewline(a: string)
    requires '\n' !in a
    ensures Split(a) == [a]
  {
    if |a| > 0 {
      assert '\n' !in a[1..];
      SplitNoNewline(a[1..]);
      assert [a[0]] + a[1..] == a;
    }
  }

  /** A newline-free prefix joins onto the first piece of the rest. */
  lemma {:induction false} SplitPrefix(a: string, rest: string)
    requires '\n' !in a
    ensures Split(a + rest) == [a + Split(rest)[0]] + Split(rest)[1..]
  {
    if |a| > 0 {
      assert '\n' !in a[1..];
      SplitPrefix(a[1..], rest);
      assert (a + rest)[1..] == a[1..] + rest;
      assert [a[0]] + (a[1..] + Split(rest)[0]) == a + Split(rest)[0];
    } else {
      assert a + rest == rest;
      var r := Split(rest);
      assert r == [r[0]] + r[1..];
      assert a + r[0] == r[0];
    }
  }

  /** The longest prefix of `s` made of decimal digits. */
  function DigitPrefix(s: string): (r: string)
    ensures |r| <= |s| && r == s[..|r|]
    ensures AllDigits(r)
    ensures |r| < |s| ==> !IsDigit(s[|r|])
  {
    if |s| > 0 && IsDigit(s[0]) then [s[0]] + DigitPrefix(s[1..]) else ""
  }

  function DigitValue(c: char): nat
    requires IsDigit(c)
  {
    (c as int) - ('0' as int)
  }

  /** The number a string of decimal digits denotes, most significant digit first. */
  function DigitsValue(ds: string): nat
    requires AllDigits(ds)
  {
    if |ds| == 0 then 0 else 10 * DigitsValue(ds[..|ds| - 1]) + DigitValue(ds[|ds| - 1])
  }

  function DigitChar(d: nat): (c: char)
    requires d < 10
    ensures IsDigit(c) && DigitValue(c) == d
  {
    ('0' as int + d) as char
  }

  /** The decimal rendering of `n` (what `pgrep` prints for a pid): digits only, no
      leading zero, and denoting `n`. */
  function Decimal(n: nat): (r: string)
    ensures |r| >= 1 && AllDigits(r)
    ensures r[0] == '0' ==> n == 0
    ensures DigitsValue(r) == n
  {
    if n < 10 then [DigitChar(n)]
    else
      var r := Decimal(n / 10) + [DigitChar(n % 10)];
      assert r[..|r| - 1] == Decimal(n / 10);
      r
  }

  /** `parseInt(s, 10)` reduced to what a pid list needs: leading white space is skipped,
      one optional sign is read, then the longest run of decimal digits; anything after
      it is ignored. No digits at all is `NaN`, here `None`. */
  function ParseInt(s: string): Option<int>
  {
    if |s| > 0 && IsSpace(s[0]) then ParseInt(s[1..]) else ParseSigned(s)
  }

  /** What `parseInt` does after the white space: an optional sign, then the digits. It is
      a number exactly when a digit comes first, or a sign and then a digit. */
  function ParseSigned(t: string): (r: Option<int>)
    ensures r.Some? <==>
      (|t| > 0 && IsDigit(t[0])) || (|t| > 1 && (t[0] == '-' || t[0] == '+') && IsDigit(t[1]))
  {
    if |t| > 0 && (t[0] == '-' || t[0] == '+') then
      match ParseDigits(t[1..])
      case None => None
      case Some(v) =>
        var i: int := v;
        Some(if t[0] == '-' then -i else i)
    else ParseDigits(t)
  }

  /** The value of the longest run of digits at the start of `u`, if there is one. */
  function ParseDigits(u: string): (r: Option<nat>)
    ensures r.Some? <==> |u| > 0 && IsDigit(u[0])
  {
    var ds := DigitPrefix(u);
    if |ds| == 0 then None
    else
      assert u[0] == ds[0];
      Some(DigitsValue(ds))
  }

  /** A decimal number preceded by white space and followed by something that is not a
      digit (a carriage return, say) parses back to itself, as does the bare number. */
  lemma {:induction false} ParseDecimal(ws: string, n: nat, tail: string)
    requires AllSpace(ws)
    requires |tail| > 0 ==> !IsDigit(tail[0])
    ensures ParseInt(ws + Decimal(n) + tail) == Some(n)
  {
    var d := Decimal(n);
    assert ws + d + tail == ws + (d + tail);
    assert (d + tail)[0] == d[0];
    SkipSpaces(ws, d + tail);
    ReadDigits(d, tail);
  }

  /** A run of digits ended by a non-digit reads as the number it denotes. */
  lemma ReadDigits(d: string, tail: string)
    requires |d| > 0 && AllDigits(d)
    requires |tail| > 0 ==> !IsDigit(tail[0])
    ensures ParseSigned(d + tail) == Some(DigitsValue(d))
  {
    assert (d + tail)[0] == d[0];
    DigitPrefixOf(d, tail);
  }

  lemma {:induction false} NoDigitIsNaN(s: string)
    requires forall k :: 0 <= k < |s| ==> !IsDigit(s[k])
    ensures ParseInt(s) == None
  {
    if |s| > 0 && IsSpace(s[0]) {
      assert forall k :: 0 <= k < |s[1..]| ==> s[1..][k] == s[k + 1];
      NoDigitIsNaN(s[1..]);
    } else if |s| > 1 {
      assert !IsDigit(s[1]);
    }
  }

  /** The white space `parseInt` skips is exactly what `trim` strips from the front. */
  lemma {:induction false} ParseIntAfterSpace(s: string)
    ensures ParseInt(s) == ParseSigned(TrimStart(s))
  {
    if |s| > 0 && IsSpace(s[0]) {
      ParseIntAfterSpace(s[1..]);
    }
  }

  lemma {:induction false} SkipSpaces(ws: string, s: string)
    requires AllSpace(ws)
    requires |s| > 0 && !IsSpace(s[0])
    ensures ParseInt(ws + s) == ParseSigned(s)
  {
    if |ws| > 0 {
      assert (ws + s)[1..] == ws[1..] + s;
      SkipSpaces(ws[1..], s);
    } else {
      assert ws + s == s;
    }
  }

  lemma {:induction false} DigitPrefixOf(d: string, tail: string)
    requires AllDigits(d)
    requires |tail| > 0 ==> !IsDigit(tail[0])
    ensures DigitPrefix(d + tail) == d
  {
    if |d| > 0 {
      assert (d + tail)[1..] == d[1..] + tail;
      DigitPrefixOf(d[1..], tail);
      assert [d[0]] + d[1..] == d;
    } else {
      assert d + tail == tail;
    }
  }
}
