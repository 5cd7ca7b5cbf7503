/** The password-hash printer and verifier. The key derivation (section 5.2 of
    RFC 8018) is a parameter; `None` stands for its raising an error. */
module PasswordHash {
  import opened Common
  import opened Base64

  type Kdf = (string, seq<Byte>, int) -> Option<seq<Byte>>

  // ----- decimal numbers -----

  function Digit(d: nat): char
    requires d < 10
  {
    (d + 48) as char
  }

  function Digits(n: nat): string {
    if n < 10 then [Digit(n)] else Digits(n / 10) + [Digit(n % 10)]
  }

  /** Python's `str` of an integer. */
  function Print(n: int): string {
    if n < 0 then "-" + Digits(-n) else Digits(n)
  }

  predicate IsDigit(c: char) {
    '0' <= c <= '9'
  }

  /** Digits, with single underscores allowed between them. */
  function ParseNat(s: string): Option<nat> {
    if s == "" || !IsDigit(s[|s| - 1]) then None
    else
      var d := s[|s| - 1] as int - 48;
      if |s| == 1 then Some(d)
      else
        var front := s[..|s| - 1];
        match ParseNat(if front[|front| - 1] == '_' then front[..|front| - 1] else front)
        case None => None
        case Some(v) => Some(10 * v + d)
  }

  function Negate(v: Option<int>): Option<int> {
    if v.Some? then Some(-v.value) else None
  }

  /** Python's `int` of a string, on ASCII text. */
  function ParseInt(text: string): Option<int> {
    var s := Strip(text);
    if s != "" && s[0] == '-' then Negate(ParseNat(s[1..]))
    else if s != "" && s[0] == '+' then ParseNat(s[1..])
    else ParseNat(s)
  }

  // ----- hash strings -----

  /** Python's `s.split('$', max)`. */
  function Split(s: string, max: nat): seq<string>
    decreases |s|
  {
    if max == 0 || '$' !in s then [s]
    else
      var i := FirstDollar(s);
      [s[..i]] + Split(s[i + 1..], max - 1)
  }

  function FirstDollar(s: string): (i: nat)
    requires '$' in s
    ensures i < |s| && s[i] == '$' && '$' !in s[..i]
  {
    if s[0] == '$' then 0
    else
      var i := FirstDollar(s[1..]);
      assert s[..i + 1] == [s[0]] + s[1..][..i];
      i + 1
  }

  const ALGORITHM := "pbkdf2_sha256"

  function Hash(kdf: Kdf, password: string, salt: seq<Byte>, iterations: int): Option<string> {
    match kdf(password, salt, iterations)
    case None => None
    case Some(dk) => Some(ALGORITHM + "$" + Print(iterations) + "$" + Encode(salt) + "$" + Encode(dk))
  }

  /** Any malformed field, like any error, is a mismatch. */
  predicate Verify(kdf: Kdf, password: string, stored: string) {
    var fields := Split(stored, 3);
    && |fields| == 4
    && fields[0] == ALGORITHM
    && var iterations, salt, expected := ParseInt(fields[1]), Decode(fields[2]), Decode(fields[3]);
       iterations.Some? && salt.Some? && expected.Some? && kdf(password, salt.value, iterations.value) == expected
  }

  // ----- round trip -----

  lemma {:induction false} DigitsAreDigits(n: nat)
    ensures Digits(n) != "" && forall c :: c in Digits(n) ==> IsDigit(c)
  {
    if n >= 10 {
      DigitsAreDigits(n / 10);
    }
  }

  lemma {:induction false} ParseDigits(n: nat)
    ensures ParseNat(Digits(n)) == Some(n)
  {
    DigitsAreDigits(n);
    if n >= 10 {
      ParseDigits(n / 10);
      DigitsAreDigits(n / 10);
      var s, front := Digits(n), Digits(n / 10);
      assert s[..|s| - 1] == front;
      assert front[|front| - 1] in front;
    }
  }

  lemma ParsePrint(n: int)
    ensures ParseInt(Print(n)) == Some(n)
    ensures '$' !in Print(n)
  {
    var m := if n < 0 then -n else n;
    var digits := Digits(m);
    DigitsAreDigits(m);
    ParseDigits(m);
    assert IsDigit(digits[0]) && IsDigit(digits[|digits| - 1]);
    if n < 0 {
      ParseNegative(digits, m);
    } else {
      NothingToStrip(digits);
    }
  }

  lemma ParseNegative(digits: string, m: int)
    requires digits != "" && IsDigit(digits[|digits| - 1]) && ParseNat(digits).Some? && ParseNat(digits).value == m
    ensures ParseInt("-" + digits) == Some(-m)
  {
    var s := "-" + digits;
    assert s[|s| - 1] == digits[|digits| - 1];
    NothingToStrip(s);
    assert s[1..] == digits;
  }

  lemma NothingToStrip(s: string)
    requires s != "" && !IsSpace(s[0]) && !IsSpace(s[|s| - 1])
    ensures Strip(s) == s
  {
  }

  lemma SplitFirst(field: string, rest: string, max: nat)
    requires '$' !in field && max > 0
    ensures Split(field + "$" + rest, max) == [field] + Split(rest, max - 1)
  {
    var s := field + "$" + rest;
    assert s[|field|] == '$';
    assert forall x :: 0 <= x < |field| ==> s[x] == field[x];
    var i := FirstDollar(s);
    assert forall x :: 0 <= x < i ==> s[x] == s[..i][x];
    assert s[..i] == field && s[i + 1..] == rest;
  }

  lemma SplitFour(a: string, b: string, c: string, d: string)
    requires '$' !in a && '$' !in b && '$' !in c
    ensures Split(a + "$" + b + "$" + c + "$" + d, 3) == [a, b, c, d]
  {
    SplitFirst(a, b + "$" + (c + "$" + d), 3);
    SplitFirst(b, c + "$" + d, 2);
    SplitFirst(c, d, 1);
    Nested(a, b, c, d);
  }

  lemma Nested(a: string, b: string, c: string, d: string)
    ensures a + "$" + b + "$" + c + "$" + d == a + "$" + (b + "$" + (c + "$" + d))
  {
    var x, y, z := a + "$", b + "$", c + "$";
    Associative(x, b, "$");
    Associative(x + y, c, "$");
    Associative(x + y, z, d);
    Associative(x, y, z + d);
  }

  /** The four fields come back as they were written. */
  lemma HashFields(iterations: int, salt: seq<Byte>, dk: seq<Byte>)
    ensures Split(ALGORITHM + "$" + Print(iterations) + "$" + Encode(salt) + "$" + Encode(dk), 3)
         == [ALGORITHM, Print(iterations), Encode(salt), Encode(dk)]
  {
    ParsePrint(iterations);
    EncodeAvoidsDollar(salt);
    SplitFour(ALGORITHM, Print(iterations), Encode(salt), Encode(dk));
  }

  /** For every password, salt and iteration count: a stored hash accepts exactly the
      passwords whose derived key is that of the original. */
  lemma VerifyHash(kdf: Kdf, password: string, salt: seq<Byte>, iterations: int, attempt: string)
    requires Hash(kdf, password, salt, iterations).Some?
    ensures Verify(kdf, attempt, Hash(kdf, password, salt, iterations).value)
       <==> kdf(attempt, salt, iterations) == kdf(password, salt, iterations)
  {
    var dk := kdf(password, salt, iterations).value;
    HashFields(iterations, salt, dk);
    ParsePrint(iterations);
    DecodeEncode(salt);
    DecodeEncode(dk);
  }

  /** A hash string pins down salt, iteration count and derived key. */
  lemma HashPinsFields(kdf: Kdf, p: string, s: seq<Byte>, n: int, p': string, s': seq<Byte>, n': int)
    requires Hash(kdf, p, s, n).Some? && Hash(kdf, p', s', n') == Hash(kdf, p, s, n)
    ensures s == s' && n == n' && kdf(p, s, n) == kdf(p', s', n')
  {
    var dk, dk' := kdf(p, s, n).value, kdf(p', s', n').value;
    HashFields(n, s, dk);
    HashFields(n', s', dk');
    ParsePrint(n);
    ParsePrint(n');
    DecodeEncode(s);
    DecodeEncode(s');
    DecodeEncode(dk);
    DecodeEncode(dk');
    assert [ALGORITHM, Print(n), Encode(s), Encode(dk)] == [ALGORITHM, Print(n'), Encode(s'), Encode(dk')];
  }

  // ----- exactly which stored strings are accepted -----

  /** Digits with single underscores between them. */
  predicate IsNumber(s: string) {
    && s != "" && '0' <= s[0] <= '9' && '0' <= s[|s| - 1] <= '9'
    && (forall i :: 0 <= i < |s| ==> '0' <= s[i] <= '9' || s[i] == '_')
    && (forall i :: 0 <= i < |s| - 1 ==> s[i] != '_' || s[i + 1] != '_')
  }

  /** The value of the digits, underscores left out. */
  function DigitsValue(s: string): nat
    requires forall i :: 0 <= i < |s| ==> '0' <= s[i] <= '9' || s[i] == '_'
  {
    if s == "" then 0
    else if s[|s| - 1] == '_' then DigitsValue(s[..|s| - 1])
    else 10 * DigitsValue(s[..|s| - 1]) + (s[|s| - 1] as int - '0' as int)
  }

  lemma {:induction false} ParseNatExactly(s: string)
    ensures ParseNat(s).Some? <==> IsNumber(s)
    ensures IsNumber(s) ==> ParseNat(s) == Some(DigitsValue(s))
    decreases |s|
  {
    if |s| > 1 && IsDigit(s[|s| - 1]) {
      var front := s[..|s| - 1];
      var before := if front[|front| - 1] == '_' then front[..|front| - 1] else front;
      ParseNatExactly(before);
      if IsNumber(s) {
        assert s[|s| - 2] == front[|front| - 1];
        assert front[|front| - 1] == '_' ==> s[|s| - 3] != '_';
        assert IsNumber(before);
      }
      if IsNumber(before) {
        assert forall i :: 0 <= i < |before| ==> s[i] == before[i];
        assert IsNumber(s);
      }
    }
  }

  /** Surrounding blanks apart, an integer is a number, with or without a sign. */
  lemma ParseIntExactly(text: string, value: int)
    ensures ParseInt(text) == Some(value) <==>
      var s := Strip(text);
      || (IsNumber(s) && value == DigitsValue(s))
      || (s != "" && s[0] == '+' && IsNumber(s[1..]) && value == DigitsValue(s[1..]))
      || (s != "" && s[0] == '-' && IsNumber(s[1..]) && value == 0 - DigitsValue(s[1..]))
  {
    var s := Strip(text);
    ParseNatExactly(s);
    if s != "" {
      ParseNatExactly(s[1..]);
    }
  }

  predicate IsHashOf(kdf: Kdf, password: string, stored: string, iterations: string, salt: string, key: string) {
    && stored == "pbkdf2_sha256$" + iterations + "$" + salt + "$" + key
    && '$' !in iterations && '$' !in salt
    && ParseInt(iterations).Some? && Decode(salt).Some? && Decode(key).Some?
    && kdf(password, Decode(salt).value, ParseInt(iterations).value) == Some(Decode(key).value)
  }

  lemma SplitPieces(s: string, max: nat)
    requires max > 0 && '$' in s
    ensures var f := Split(s, max);
      && s == f[0] + "$" + s[FirstDollar(s) + 1..] && '$' !in f[0]
      && f[1..] == Split(s[FirstDollar(s) + 1..], max - 1)
  {
  }

  /** A stored string is accepted exactly when it names the algorithm and its other three fields
      read as a count, a salt and the key derived from them; anything else is a mismatch. */
  lemma VerifyExactly(kdf: Kdf, password: string, stored: string)
    ensures Verify(kdf, password, stored) <==>
      exists iterations, salt, key :: IsHashOf(kdf, password, stored, iterations, salt, key)
  {
    if Verify(kdf, password, stored) {
      FieldsJoin(stored);
      var f := Split(stored, 3);
      assert IsHashOf(kdf, password, stored, f[1], f[2], f[3]);
    }
    forall iterations, salt, key | IsHashOf(kdf, password, stored, iterations, salt, key) ensures Verify(kdf, password, stored) {
      HashIsVerified(kdf, password, stored, iterations, salt, key);
    }
  }

  lemma HashIsVerified(kdf: Kdf, password: string, stored: string, iterations: string, salt: string, key: string)
    requires IsHashOf(kdf, password, stored, iterations, salt, key)
    ensures Verify(kdf, password, stored)
  {
    SplitFour("pbkdf2_sha256", iterations, salt, key);
    assert "pbkdf2_sha256" + "$" == "pbkdf2_sha256$";
  }

  lemma TwoFields(s: string)
    requires |Split(s, 1)| == 2
    ensures var f := Split(s, 1); s == f[0] + "$" + f[1] && '$' !in f[0]
  {
    SplitPieces(s, 1);
  }

  lemma ThreeFields(s: string)
    requires |Split(s, 2)| == 3
    ensures var f := Split(s, 2); s == f[0] + "$" + (f[1] + "$" + f[2]) && '$' !in f[0] && '$' !in f[1]
  {
    SplitPieces(s, 2);
    TwoFields(s[FirstDollar(s) + 1..]);
  }

  lemma FieldsJoin(s: string)
    requires |Split(s, 3)| == 4
    ensures var f := Split(s, 3);
      s == f[0] + "$" + f[1] + "$" + f[2] + "$" + f[3] && '$' !in f[0] && '$' !in f[1] && '$' !in f[2]
  {
    var f := Split(s, 3);
    SplitPieces(s, 3);
    ThreeFields(s[FirstDollar(s) + 1..]);
    Nested(f[0], f[1], f[2], f[3]);
  }
}
