// The string helpers of the parser: getline splitting, stoul, and decimal text.
module Text {

  datatype CronError =
    | EmptyExpression | NotSixFields | TrailingComma | NoItems | BadIncrementer | ZeroIncrement
    | BadRange | ExceedsMaximum | BelowMinimum | StartExceedsEnd | NotANumber | NumberTooLarge

  /** A value, or the bad_cronexpr that is thrown instead. */
  datatype Result<+T> = Ok(value: T) | Bad(error: CronError)

  /** What a C string built from text.data() holds: the text up to its first NUL. */
  function CString(s: string): string {
    if s == [] || s[0] == '\0' then [] else [s[0]] + CString(s[1..])
  }

  lemma {:induction false} CStringWhole(s: string)
    requires '\0' !in s
    ensures CString(s) == s
  {
    if s != [] { CStringWhole(s[1..]); }
  }

  /** The position of the first delimiter, or the length of the text. */
  function IndexOf(s: string, delimiter: char): (j: nat)
    ensures j <= |s| && (j < |s| ==> s[j] == delimiter)
    ensures forall i :: 0 <= i < j ==> s[i] != delimiter
  {
    if s == [] || s[0] == delimiter then 0 else 1 + IndexOf(s[1..], delimiter)
  }

  /** The tokens getline reads.  A delimiter at the very end adds no empty token. */
  function Lines(s: string, delimiter: char): seq<string> {
    if s == [] then []
    else
      var j := IndexOf(s, delimiter);
      [s[..j]] + if j == |s| then [] else Lines(s[j + 1..], delimiter)
  }

  function Tokens(text: string, delimiter: char): seq<string> {
    Lines(CString(text), delimiter)
  }

  /** split: the getline loop, `rest` being what is left of the stream. */
  method Split(text: string, delimiter: char) returns (tokens: seq<string>)
    ensures tokens == Tokens(text, delimiter)
  {
    hide *;
    tokens := [];
    var rest := CString(text);
    Whole(rest, delimiter);
    while rest != []
      invariant tokens + Lines(rest, delimiter) == Tokens(text, delimiter)
      decreases |rest|
    {
      LinesStep(tokens, rest, delimiter);
      var j := IndexOf(rest, delimiter);
      tokens := tokens + [rest[..j]];
      rest := if j == |rest| then [] else rest[j + 1..];
    }
    NoLines(tokens, delimiter);
  }

  lemma Whole(s: string, delimiter: char)
    ensures [] + Lines(s, delimiter) == Lines(s, delimiter)
    ensures forall text :: CString(text) == s ==> Tokens(text, delimiter) == Lines(s, delimiter)
  {
    hide Lines;
  }

  lemma NoLines(tokens: seq<string>, delimiter: char)
    ensures tokens + Lines([], delimiter) == tokens
  {
  }

  lemma LinesStep(before: seq<string>, s: string, delimiter: char)
    requires s != []
    ensures var j := IndexOf(s, delimiter);
            before + Lines(s, delimiter)
              == before + [s[..j]] + Lines(if j == |s| then [] else s[j + 1..], delimiter)
  {
    hide *;
    LinesUnfold(s, delimiter);
  }

  lemma LinesUnfold(s: string, delimiter: char)
    requires s != []
    ensures var j := IndexOf(s, delimiter);
            Lines(s, delimiter) == [s[..j]] + Lines(if j == |s| then [] else s[j + 1..], delimiter)
    ensures Lines([], delimiter) == []
  {
    hide IndexOf;
  }

  function Join(tokens: seq<string>, delimiter: char): string {
    if tokens == [] then []
    else if |tokens| == 1 then tokens[0]
    else tokens[0] + [delimiter] + Join(tokens[1..], delimiter)
  }

  predicate Plain(token: string, delimiter: char) {
    delimiter !in token && '\0' !in token
  }

  lemma LinesAfter(t: string, rest: string, delimiter: char)
    requires delimiter !in t
    ensures t != [] ==> Lines(t, delimiter) == [t]
    ensures Lines(t + [delimiter] + rest, delimiter) == [t] + Lines(rest, delimiter)
  {
    hide IndexOf, Lines;
    LinesUnfold("x", delimiter);
    if t != [] {
      assert IndexOf(t, delimiter) == |t|;
      LinesUnfold(t, delimiter);
      assert t[..|t|] == t;
    }
    var s := t + [delimiter] + rest;
    FirstDelimiter(t, rest, delimiter);
    LinesUnfold(s, delimiter);
    assert s[..|t|] == t && s[|t| + 1..] == rest;
  }

  lemma FirstDelimiter(t: string, rest: string, delimiter: char)
    requires delimiter !in t
    ensures IndexOf(t + [delimiter] + rest, delimiter) == |t|
  {
    hide IndexOf;
    var s := t + [delimiter] + rest;
    assert s[|t|] == delimiter;
    assert forall i :: 0 <= i < |t| ==> s[i] == t[i] && t[i] in t;
  }

  /** Splitting inverts joining: plain tokens, the last of them not empty, come back as they were. */
  lemma {:induction false} LinesOfJoin(tokens: seq<string>, delimiter: char)
    requires tokens != [] && tokens[|tokens| - 1] != []
    requires forall t :: t in tokens ==> delimiter !in t
    ensures Lines(Join(tokens, delimiter), delimiter) == tokens
  {
    hide Lines;
    if |tokens| == 1 {
      LinesAfter(tokens[0], [], delimiter);
    } else {
      LinesOfJoin(tokens[1..], delimiter);
      LinesAfter(tokens[0], Join(tokens[1..], delimiter), delimiter);
    }
  }

  lemma {:induction false} JoinHasNoNul(tokens: seq<string>, delimiter: char)
    requires delimiter != '\0' && forall t :: t in tokens ==> '\0' !in t
    ensures '\0' !in Join(tokens, delimiter)
  {
    if |tokens| > 1 { JoinHasNoNul(tokens[1..], delimiter); }
  }

  lemma TokensOfJoin(tokens: seq<string>, delimiter: char)
    requires tokens != [] && tokens[|tokens| - 1] != [] && delimiter != '\0'
    requires forall t :: t in tokens ==> Plain(t, delimiter)
    ensures Tokens(Join(tokens, delimiter), delimiter) == tokens
  {
    JoinHasNoNul(tokens, delimiter);
    CStringWhole(Join(tokens, delimiter));
    LinesOfJoin(tokens, delimiter);
  }

  /** Joining inverts splitting, but for a delimiter at the end of the text. */
  lemma {:induction false} JoinOfLines(s: string, delimiter: char)
    ensures s == Join(Lines(s, delimiter), delimiter)
         || s == Join(Lines(s, delimiter), delimiter) + [delimiter]
    ensures s != [] && s[|s| - 1] != delimiter ==> s == Join(Lines(s, delimiter), delimiter)
  {
    hide *;
    if s == [] {
      JoinOfNothing(delimiter);
    } else {
      var j := IndexOf(s, delimiter);
      var t := s[..j];
      var rest := if j == |s| then [] else s[j + 1..];
      LinesUnfold(s, delimiter);
      JoinCons(t, Lines(rest, delimiter), delimiter);
      if j < |s| {
        JoinOfLines(rest, delimiter);
        assert s == t + [delimiter] + rest;
        if rest != [] {
          LinesUnfold(rest, delimiter);
          assert rest[|rest| - 1] == s[|s| - 1];
          var joined := Join(Lines(rest, delimiter), delimiter);
          assert t + [delimiter] + (joined + [delimiter]) == t + [delimiter] + joined + [delimiter];
        }
      } else {
        assert t == s;
      }
    }
  }

  lemma JoinOfNothing(delimiter: char)
    ensures Join(Lines([], delimiter), delimiter) == []
  {
  }

  lemma JoinCons(t: string, tokens: seq<string>, delimiter: char)
    ensures Join([t] + tokens, delimiter) == if tokens == [] then t else t + [delimiter] + Join(tokens, delimiter)
  {
    assert ([t] + tokens)[1..] == tokens;
  }

  // ---------- Numbers ----------

  const ULONG_MAX := 0xFFFF_FFFF_FFFF_FFFF

  predicate IsSpace(c: char) {
    c == ' ' || c == '\t' || c == '\n' || c == '\r' || c == 11 as char || c == 12 as char
  }

  predicate IsDigit(c: char) {
    '0' <= c <= '9'
  }

  function SkipSpaces(s: string): string {
    if s != [] && IsSpace(s[0]) then SkipSpaces(s[1..]) else s
  }

  function DigitRun(s: string): (r: string)
    ensures forall i :: 0 <= i < |r| ==> IsDigit(r[i])
  {
    if s != [] && IsDigit(s[0]) then [s[0]] + DigitRun(s[1..]) else []
  }

  function Value(digits: string): nat
    requires forall i :: 0 <= i < |digits| ==> IsDigit(digits[i])
  {
    if digits == [] then 0
    else
      var last := digits[|digits| - 1];
      assert IsDigit(last);
      10 * Value(digits[..|digits| - 1]) + (last as int - '0' as int)
  }

  /** to_cron_int: stoul, then a cast to eight bits.  Spaces and a sign may come first, text may
      follow, and a minus sign negates modulo the width of unsigned long. */
  function ToCronInt(text: string): (r: Result<int>)
    ensures r.Ok? ==> 0 <= r.value < 256
  {
    var s := SkipSpaces(CString(text));
    var signed := s != [] && (s[0] == '-' || s[0] == '+');
    var digits := DigitRun(if signed then s[1..] else s);
    if digits == [] then Bad(NotANumber)
    else if Value(digits) > ULONG_MAX then Bad(NumberTooLarge)
    else if signed && s[0] == '-' then Ok((ULONG_MAX + 1 - Value(digits)) % 256)
    else Ok(Value(digits) % 256)
  }

  function Digit(d: int): char
    requires 0 <= d < 10
  {
    ('0' as int + d) as char
  }

  /** std::to_string of an unsigned number. */
  function Decimal(n: int): (s: string)
    requires 0 <= n
    ensures s != [] && forall c :: c in s ==> IsDigit(c)
  {
    if n < 10 then [Digit(n)] else Decimal(n / 10) + [Digit(n % 10)]
  }

  lemma {:induction false} AllDigits(s: string)
    requires forall c :: c in s ==> IsDigit(c)
    ensures DigitRun(s) == s
  {
    if s != [] {
      assert s[0] in s;
      AllDigits(s[1..]);
    }
  }

  lemma ValueOfDigits(s: string, a: int)
    requires 0 <= a < 0xD800 && IsDigit(a as char)
    requires forall i :: 0 <= i < |s| ==> IsDigit(s[i])
    ensures Value(s + [a as char]) == 10 * Value(s) + (a - '0' as int)
  {
    var t := s + [a as char];
    assert t[..|t| - 1] == s;
  }

  lemma {:induction false} DecimalValue(n: int)
    requires 0 <= n
    ensures Value(Decimal(n)) == n
  {
    var zero := '0' as int;
    if n < 10 {
      ValueOfDigits([], zero + n);
      assert [] + [Digit(n)] == [Digit(n)];
    } else {
      DecimalValue(n / 10);
      ValueOfDigits(Decimal(n / 10), zero + n % 10);
    }
  }

  /** A string of digits is read as its value modulo 256, or refused when the value does not fit in
      an unsigned long. */
  lemma DigitsRead(s: string)
    requires s != [] && forall c :: c in s ==> IsDigit(c)
    ensures ToCronInt(s) == if Value(s) <= ULONG_MAX then Ok(Value(s) % 256) else Bad(NumberTooLarge)
  {
    hide Value, DigitRun;
    assert IsDigit(s[0]) by { assert s[0] in s; }
    CStringWhole(s);
    AllDigits(s);
  }

  /** A number is read back from its decimal modulo 256, so as itself exactly when it fits in eight bits. */
  lemma DecimalReadBack(n: int)
    requires 0 <= n
    ensures ToCronInt(Decimal(n)) == if n <= ULONG_MAX then Ok(n % 256) else Bad(NumberTooLarge)
  {
    hide Decimal, Value, ToCronInt;
    DecimalValue(n);
    DigitsRead(Decimal(n));
  }
}
