/** String operations of JavaScript that the handlers rely on, on `seq<char>`. */
module Text {
  import opened Wrappers

  /** JavaScript truthiness of an optional string body field: present and not `""`. */
  predicate Truthy(v: Option<string>) {
    v.Some? && v.value != ""
  }

  /** JavaScript truthiness of an optional numeric body field: present and not `0`. */
  predicate TruthyNumber(v: Option<int>) {
    v.Some? && v.value != 0
  }

  /** `String.prototype.startsWith`. */
  predicate StartsWith(s: string, prefix: string) {
    |prefix| <= |s| && s[..|prefix|] == prefix
  }

  /** `String.prototype.endsWith`. */
  predicate EndsWith(s: string, suffix: string) {
    |suffix| <= |s| && s[|s| - |suffix|..] == suffix
  }

  // ---------------------------------------------------------------------------
  // split / join

  /** The pieces `s.split(c)` yields: the maximal runs of characters other than `c`. */
  function Split(s: string, c: char): (parts: seq<string>)
    ensures |parts| >= 1
    ensures forall i :: 0 <= i < |parts| ==> c !in parts[i]
  {
    if |s| == 0 then [""]
    else if s[0] == c then [""] + Split(s[1..], c)
    else
      var rest := Split(s[1..], c);
      [[s[0]] + rest[0]] + rest[1..]
  }

  /** `parts.join(c)`. */
  function Join(parts: seq<string>, c: char): string
    requires |parts| >= 1
  {
    if |parts| == 1 then parts[0] else parts[0] + [c] + Join(parts[1..], c)
  }

  /** Splitting and joining on the same separator gives back the string. */
  lemma {:induction false} JoinSplit(s: string, c: char)
    ensures Join(Split(s, c), c) == s
  {
    if |s| == 0 {
    } else if s[0] == c {
      JoinSplit(s[1..], c);
      assert Split(s, c) == [""] + Split(s[1..], c);
      assert s == [c] + s[1..];
    } else {
      var rest := Split(s[1..], c);
      JoinSplit(s[1..], c);
      if |rest| == 1 {
        assert Split(s, c) == [[s[0]] + rest[0]];
        assert s == [s[0]] + s[1..];
      } else {
        var parts := Split(s, c);
        assert parts == [[s[0]] + rest[0]] + rest[1..];
        assert parts[1..] == rest[1..];
        calc {
          Join(parts, c);
          [s[0]] + rest[0] + [c] + Join(rest[1..], c);
          [s[0]] + (rest[0] + [c] + Join(rest[1..], c));
          [s[0]] + Join(rest, c);
          [s[0]] + s[1..];
          s;
        }
      }
    }
  }

  /** A string free of the separator, followed by the separator, splits off as one piece. */
  lemma {:induction false} SplitAfterPiece(a: string, c: char, b: string)
    requires c !in a
    ensures Split(a + [c] + b, c) == [a] + Split(b, c)
  {
    if |a| == 0 {
      assert a + [c] + b == [c] + b;
      assert ([c] + b)[1..] == b;
    } else {
      assert a[0] != c;
      SplitAfterPiece(a[1..], c, b);
      assert (a + [c] + b)[1..] == a[1..] + [c] + b;
      assert [a[0]] + a[1..] == a;
    }
  }

  /** A string free of the separator splits into itself. */
  lemma {:induction false} SplitWhole(a: string, c: char)
    requires c !in a
    ensures Split(a, c) == [a]
  {
    if |a| > 0 {
      assert a[0] != c;
      SplitWhole(a[1..], c);
      assert [a[0]] + a[1..] == a;
    }
  }

  // ---------------------------------------------------------------------------
  // ASCII case

  /** `toLowerCase` on one character, for the ASCII letters. */
  function LowerChar(ch: char): (r: char)
    ensures 'A' <= ch <= 'Z' ==> r as int == ch as int + 32
    ensures !('A' <= ch <= 'Z') ==> r == ch
  {
    if 'A' <= ch <= 'Z' then (ch as int + 32) as char else ch
  }

  /** `toLowerCase` on a string whose non-ASCII letters are left as they are. */
  function Lower(s: string): (r: string)
    ensures |r| == |s|
    ensures forall i :: 0 <= i < |s| ==> r[i] == LowerChar(s[i])
  {
    seq(|s|, i requires 0 <= i < |s| => LowerChar(s[i]))
  }

  // ---------------------------------------------------------------------------
  // UTF-16 length

  /** A code point outside the Basic Multilingual Plane: JavaScript stores it as a surrogate pair. */
  predicate Astral(ch: char) {
    ch as int >= 0x1_0000
  }

  /** JavaScript's `length` of a string: the number of UTF-16 code units. */
  function Utf16Length(s: string): (n: nat)
    ensures |s| <= n <= 2 * |s|
    ensures n == 0 <==> |s| == 0
  {
    if |s| == 0 then 0
    else Utf16Length(s[..|s| - 1]) + (if Astral(s[|s| - 1]) then 2 else 1)
  }

  /** A string of Basic Multilingual Plane characters has one code unit per character. */
  lemma {:induction false} Utf16LengthPlain(s: string)
    requires forall i :: 0 <= i < |s| ==> !Astral(s[i])
    ensures Utf16Length(s) == |s|
  {
    if |s| > 0 {
      Utf16LengthPlain(s[..|s| - 1]);
    }
  }

  /** A string of astral characters has two code units per character. */
  lemma {:induction false} Utf16LengthAstral(s: string)
    requires forall i :: 0 <= i < |s| ==> Astral(s[i])
    ensures Utf16Length(s) == 2 * |s|
  {
    if |s| > 0 {
      Utf16LengthAstral(s[..|s| - 1]);
    }
  }

  // ---------------------------------------------------------------------------
  // decimal numerals

  function DigitChar(d: nat): (ch: char)
    requires d < 10
    ensures '0' <= ch <= '9'
  {
    ('0' as int + d) as char
  }

  predicate IsDigit(ch: char) {
    '0' <= ch <= '9'
  }

  /** The decimal numeral JavaScript prints for a non-negative integer (`${n}`). */
  function Decimal(n: nat): (s: string)
    ensures |s| >= 1
    ensures forall i :: 0 <= i < |s| ==> IsDigit(s[i])
  {
    if n < 10 then [DigitChar(n)] else Decimal(n / 10) + [DigitChar(n % 10)]
  }

  /** The number a string of decimal digits denotes. */
  function DecimalValue(s: string): nat
    requires forall i :: 0 <= i < |s| ==> IsDigit(s[i])
  {
    if |s| == 0 then 0
    else
      assert IsDigit(s[|s| - 1]);
      DecimalValue(s[..|s| - 1]) * 10 + (s[|s| - 1] as int - '0' as int)
  }

  /** Reading back a printed numeral gives the number. */
  lemma {:induction false} DecimalRoundTrip(n: nat)
    ensures DecimalValue(Decimal(n)) == n
  {
    if n >= 10 {
      var s := Decimal(n);
      assert s[..|s| - 1] == Decimal(n / 10);
      DecimalRoundTrip(n / 10);
    }
  }
}
