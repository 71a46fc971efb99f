/** String operations of the host language that the scripts rely on. */
module Text {
  /** The characters `trim` removes. */
  predicate IsSpace(c: char) {
    c in {' ', '\t', '\n', '\r', '\U{000b}', '\U{000c}', '\U{00a0}', '\U{1680}', '\U{2028}', '\U{2029}',
          '\U{202f}', '\U{205f}', '\U{3000}', '\U{feff}'}
    || '\U{2000}' <= c <= '\U{200a}'
  }

  function TrimStart(s: string): string {
    if s != "" && IsSpace(s[0]) then TrimStart(s[1..]) else s
  }

  function TrimEnd(s: string): string {
    if s != "" && IsSpace(s[|s| - 1]) then TrimEnd(s[..|s| - 1]) else s
  }

  function Trim(s: string): string {
    TrimEnd(TrimStart(s))
  }

  /** Trimming again, or trimming one more space at the end, changes nothing. */
  lemma {:induction false} TrimTrailing(s: string, c: char)
    requires s != "" && Trim(s) == s && IsSpace(c)
    ensures Trim(s + [c]) == s
  {
    TrimStartShortens(s);
    TrimEndShortens(TrimStart(s));
    var t := s + [c];
    assert t[0] == s[0] && t[..|t| - 1] == s;
    assert TrimStart(s) == s && TrimEnd(s) == s;
    assert !IsSpace(s[0]) by { if IsSpace(s[0]) { TrimStartShortens(s[1..]); } }
  }

  lemma {:induction false} TrimStartShortens(s: string)
    ensures |TrimStart(s)| <= |s| && (|TrimStart(s)| == |s| ==> TrimStart(s) == s)
  {
    if s != "" && IsSpace(s[0]) { TrimStartShortens(s[1..]); }
  }

  lemma {:induction false} TrimEndShortens(s: string)
    ensures |TrimEnd(s)| <= |s|
  {
    if s != "" && IsSpace(s[|s| - 1]) { TrimEndShortens(s[..|s| - 1]); }
  }

  ghost predicate AllSpace(s: string) {
    forall i :: 0 <= i < |s| ==> IsSpace(s[i])
  }

  /** Trimming takes away white space at both ends, and all of it. */
  lemma TrimExactly(s: string) returns (left: string, right: string)
    ensures s == left + Trim(s) + right && AllSpace(left) && AllSpace(right)
    ensures Trim(s) != "" ==> !IsSpace(Trim(s)[0]) && !IsSpace(Trim(s)[|Trim(s)| - 1])
  {
    left := StartExactly(s);
    right := EndExactly(TrimStart(s));
    if Trim(s) != "" { assert Trim(s)[0] == TrimStart(s)[0]; }
  }

  lemma {:induction false} StartExactly(s: string) returns (left: string)
    ensures s == left + TrimStart(s) && AllSpace(left)
    ensures TrimStart(s) != "" ==> !IsSpace(TrimStart(s)[0])
  {
    left := "";
    if s != "" && IsSpace(s[0]) {
      left := StartExactly(s[1..]);
      assert s == [s[0]] + s[1..];
      left := [s[0]] + left;
    }
  }

  lemma {:induction false} EndExactly(s: string) returns (right: string)
    ensures s == TrimEnd(s) + right && AllSpace(right)
    ensures TrimEnd(s) != "" ==> !IsSpace(TrimEnd(s)[|TrimEnd(s)| - 1])
  {
    right := "";
    if s != "" && IsSpace(s[|s| - 1]) {
      right := EndExactly(s[..|s| - 1]);
      assert s == s[..|s| - 1] + [s[|s| - 1]];
      right := right + [s[|s| - 1]];
    }
  }

  /** `split` by one character. */
  function Split(s: string, at: char): (r: seq<string>)
    ensures r != []
  {
    if s == "" then [""]
    else if s[0] == at then [""] + Split(s[1..], at)
    else var rest := Split(s[1..], at); [[s[0]] + rest[0]] + rest[1..]
  }

  function Join(lines: seq<string>, at: char): string {
    if lines == [] then "" else if |lines| == 1 then lines[0] else lines[0] + [at] + Join(lines[1..], at)
  }

  lemma {:induction false} SplitFirst(line: string, rest: string, at: char)
    requires at !in line
    ensures Split(line + [at] + rest, at) == [line] + Split(rest, at)
    ensures Split(line, at) == [line]
    decreases |line|
  {
    if line == "" {
      assert line + [at] + rest == [at] + rest;
      assert ([at] + rest)[1..] == rest;
    } else {
      var whole := line + [at] + rest;
      assert whole[1..] == line[1..] + [at] + rest;
      SplitFirst(line[1..], rest, at);
      assert [line[0]] + line[1..] == line;
    }
  }

  lemma {:induction false} SplitJoin(lines: seq<string>, at: char)
    requires lines != [] && forall i :: 0 <= i < |lines| ==> at !in lines[i]
    ensures Split(Join(lines, at), at) == lines
    decreases |lines|
  {
    if |lines| == 1 { SplitFirst(lines[0], "", at); }
    else {
      SplitFirst(lines[0], Join(lines[1..], at), at);
      SplitJoin(lines[1..], at);
    }
  }

  predicate IsDigit(c: char) {
    '0' <= c <= '9'
  }

  function Decimal(n: nat): (s: string)
    ensures s != "" && forall i :: 0 <= i < |s| ==> IsDigit(s[i])
  {
    if n < 10 then [(n + '0' as int) as char] else Decimal(n / 10) + [(n % 10 + '0' as int) as char]
  }

  /** `parseInt` of a string of digits. */
  function ParseDigits(s: string): nat
    requires forall i :: 0 <= i < |s| ==> IsDigit(s[i])
  {
    if s == "" then 0
    else
      assert IsDigit(s[|s| - 1]);
      10 * ParseDigits(s[..|s| - 1]) + (s[|s| - 1] as int - '0' as int)
  }

  lemma {:induction false} ParseDecimal(n: nat)
    ensures ParseDigits(Decimal(n)) == n
  {
    var s := Decimal(n);
    if n >= 10 {
      ParseDecimal(n / 10);
      assert s[..|s| - 1] == Decimal(n / 10);
    } else {
      assert s[..0] == "";
    }
  }

  /** The longest prefix of digits. */
  function LeadingDigits(s: string): (r: string)
    ensures forall i :: 0 <= i < |r| ==> IsDigit(r[i])
  {
    if s != "" && IsDigit(s[0]) then [s[0]] + LeadingDigits(s[1..]) else ""
  }

  lemma {:induction false} LeadingDigitsOf(digits: string, rest: string)
    requires forall i :: 0 <= i < |digits| ==> IsDigit(digits[i])
    requires rest == "" || !IsDigit(rest[0])
    ensures LeadingDigits(digits + rest) == digits
    decreases |digits|
  {
    if digits == "" { assert digits + rest == rest; }
    else {
      assert (digits + rest)[1..] == digits[1..] + rest;
      LeadingDigitsOf(digits[1..], rest);
    }
  }
}
