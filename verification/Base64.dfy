/** The standard base64 encoding (section 4 of RFC 4648) and the lenient decoder of
    Python's `b64decode`, which skips what it does not know. */
module Base64 {
  import opened Common

  type Byte = x: int | 0 <= x < 256
  type Sextet = x: int | 0 <= x < 64

  function Symbol(i: Sextet): char {
    if i < 26 then (i + 65) as char        // A-Z
    else if i < 52 then (i + 71) as char   // a-z
    else if i < 62 then (i - 4) as char    // 0-9
    else if i == 62 then '+'
    else '/'
  }

  function Index(c: char): Option<Sextet> {
    if 'A' <= c <= 'Z' then Some(c as int - 65)
    else if 'a' <= c <= 'z' then Some(c as int - 71)
    else if '0' <= c <= '9' then Some(c as int + 4)
    else if c == '+' then Some(62)
    else if c == '/' then Some(63)
    else None
  }

  lemma SymbolIndex(i: Sextet)
    ensures Index(Symbol(i)) == Some(i) && Symbol(i) != '=' && Symbol(i) != '$'
  {
  }

  function Encode(bs: seq<Byte>): string {
    if |bs| == 0 then ""
    else if |bs| == 1 then [Symbol(bs[0] / 4), Symbol(bs[0] % 4 * 16), '=', '=']
    else if |bs| == 2 then [Symbol(bs[0] / 4), Symbol(bs[0] % 4 * 16 + bs[1] / 16), Symbol(bs[1] % 16 * 4), '=']
    else
      [Symbol(bs[0] / 4), Symbol(bs[0] % 4 * 16 + bs[1] / 16), Symbol(bs[1] % 16 * 4 + bs[2] / 64), Symbol(bs[2] % 64)]
      + Encode(bs[3..])
  }

  /** Position in the current group of four, the bits left over, and the pads seen in a row. */
  datatype Scanner = Scanner(quad: nat, left: nat, pads: nat)

  /** The bits left over fit the position. */
  predicate Fits(sc: Scanner) {
    && sc.quad < 4
    && sc.left < (match sc.quad case 0 => 1 case 1 => 64 case 2 => 16 case _ => 4)
  }

  function Accept(sc: Scanner, i: Sextet): (r: (seq<Byte>, Scanner))
    requires Fits(sc)
    ensures Fits(r.1)
  {
    match sc.quad
    case 0 => ([], Scanner(1, i, 0))
    case 1 => ([sc.left * 4 + i / 16], Scanner(2, i % 16, 0))
    case 2 => ([sc.left * 16 + i / 4], Scanner(3, i % 4, 0))
    case _ => ([sc.left * 64 + i], Scanner(0, 0, 0))
  }

  /** Decodes from a scanner state: a complete pad sequence ends the input, other
      unknown characters are skipped, and an incomplete group is an error. */
  function Scan(s: string, sc: Scanner): Option<seq<Byte>>
    requires Fits(sc)
    decreases |s|
  {
    if s == "" then (if sc.quad == 0 then Some([]) else None)
    else if s[0] == '=' then
      if sc.quad < 2 then Scan(s[1..], sc)
      else if sc.quad + sc.pads + 1 >= 4 then Some([])
      else Scan(s[1..], sc.(pads := sc.pads + 1))
    else match Index(s[0])
      case None => Scan(s[1..], sc)
      case Some(i) =>
        var (bs, sc') := Accept(sc, i);
        match Scan(s[1..], sc')
        case None => None
        case Some(rest) => Some(bs + rest)
  }

  const START := Scanner(0, 0, 0)

  function Decode(s: string): Option<seq<Byte>> {
    Scan(s, START)
  }

  /** Scanning one symbol. */
  lemma ScanSymbol(i: Sextet, rest: string, sc: Scanner)
    requires Fits(sc)
    ensures var (bs, sc') := Accept(sc, i);
      Scan([Symbol(i)] + rest, sc) == match Scan(rest, sc') case None => None case Some(t) => Some(bs + t)
  {
    SymbolIndex(i);
    assert ([Symbol(i)] + rest)[1..] == rest;
  }

  lemma TwoInFront<T>(x: T, y: T, rest: seq<T>)
    ensures [x, y] + rest == [x] + ([y] + rest)
  {
  }

  lemma ThreeInFront<T>(x: T, y: T, z: T, rest: seq<T>)
    ensures [x, y, z] + rest == [x] + ([y, z] + rest)
  {
  }

  lemma FourInFront<T>(x: T, y: T, z: T, w: T, rest: seq<T>)
    ensures [x, y, z, w] + rest == [x, y] + ([z, w] + rest)
  {
  }

  lemma ScanTwo(i: Sextet, j: Sextet, rest: string)
    ensures Scan([Symbol(i), Symbol(j)] + rest, START) ==
      match Scan(rest, Scanner(2, j % 16, 0)) case None => None case Some(t) => Some([i * 4 + j / 16] + t)
  {
    TwoInFront(Symbol(i), Symbol(j), rest);
    ScanSymbol(i, [Symbol(j)] + rest, START);
    ScanSymbol(j, rest, Scanner(1, i, 0));
    match Scan(rest, Scanner(2, j % 16, 0)) {
      case None =>
      case Some(t) => assert [] + ([i * 4 + j / 16] + t) == [i * 4 + j / 16] + t;
    }
  }

  /** The second half of a group, after `left` of its bits are known. */
  lemma ScanRest(left: nat, k: Sextet, l: Sextet, rest: string)
    requires left < 16
    ensures Scan([Symbol(k), Symbol(l)] + rest, Scanner(2, left, 0)) ==
      match Scan(rest, START) case None => None case Some(t) => Some([left * 16 + k / 4, k % 4 * 64 + l] + t)
  {
    TwoInFront(Symbol(k), Symbol(l), rest);
    ScanSymbol(k, [Symbol(l)] + rest, Scanner(2, left, 0));
    ScanSymbol(l, rest, Scanner(3, k % 4, 0));
    match Scan(rest, START) {
      case None =>
      case Some(t) => TwoInFront(left * 16 + k / 4, k % 4 * 64 + l, t);
    }
  }

  lemma ScanGroup(a: Byte, b: Byte, c: Byte, rest: string, bs: seq<Byte>)
    requires Scan(rest, START) == Some(bs)
    ensures Scan([Symbol(a / 4), Symbol(a % 4 * 16 + b / 16), Symbol(b % 16 * 4 + c / 64), Symbol(c % 64)] + rest, START)
         == Some([a, b, c] + bs)
  {
    var i, j, k, l := a / 4, a % 4 * 16 + b / 16, b % 16 * 4 + c / 64, c % 64;
    ThreeBytes(a, b, c);
    ScanRest(j % 16, k, l, rest);
    assert Scan([Symbol(k), Symbol(l)] + rest, Scanner(2, j % 16, 0)) == Some([b, c] + bs);
    ScanTwo(i, j, [Symbol(k), Symbol(l)] + rest);
    FourInFront(Symbol(i), Symbol(j), Symbol(k), Symbol(l), rest);
    ThreeInFront(a, b, c, bs);
  }

  /** Decoding undoes encoding, for every byte string. */
  lemma {:induction false} DecodeEncode(bs: seq<Byte>)
    ensures Decode(Encode(bs)) == Some(bs)
  {
    if |bs| == 1 {
      LastGroupOfOne(bs[0]);
      assert bs == [bs[0]];
    } else if |bs| == 2 {
      LastGroupOfTwo(bs[0], bs[1]);
      assert bs == [bs[0], bs[1]];
    } else if |bs| > 2 {
      DecodeEncode(bs[3..]);
      ScanGroup(bs[0], bs[1], bs[2], Encode(bs[3..]), bs[3..]);
      assert bs == [bs[0], bs[1], bs[2]] + bs[3..];
    }
  }

  lemma ThreeBytes(a: Byte, b: Byte, c: Byte)
    ensures var i, j, k, l := a / 4, a % 4 * 16 + b / 16, b % 16 * 4 + c / 64, c % 64;
      i * 4 + j / 16 == a && j % 16 * 16 + k / 4 == b && k % 4 * 64 + l == c
  {
  }

  lemma LastGroupOfOne(a: Byte)
    ensures Decode([Symbol(a / 4), Symbol(a % 4 * 16), '=', '=']) == Some([a])
  {
    ScanTwo(a / 4, a % 4 * 16, "==");
    assert [Symbol(a / 4), Symbol(a % 4 * 16)] + "==" == [Symbol(a / 4), Symbol(a % 4 * 16), '=', '='];
    assert "=="[1..] == "=";
    assert [a] + [] == [a];
  }

  lemma TwoBytes(a: Byte, b: Byte)
    ensures var i, j, k := a / 4, a % 4 * 16 + b / 16, b % 16 * 4;
      i * 4 + j / 16 == a && j % 16 * 16 + k / 4 == b
  {
  }

  lemma LastPad(sc: Scanner)
    requires Fits(sc) && sc.quad == 3
    ensures Scan("=", sc) == Some([])
  {
  }

  lemma LastThree(x: char, y: char, z: char)
    ensures [x, y] + ([z] + "=") == [x, y, z, '=']
  {
  }

  lemma LastGroupOfTwo(a: Byte, b: Byte)
    ensures Decode([Symbol(a / 4), Symbol(a % 4 * 16 + b / 16), Symbol(b % 16 * 4), '=']) == Some([a, b])
  {
    var i, j, k := a / 4, a % 4 * 16 + b / 16, b % 16 * 4;
    TwoBytes(a, b);
    ScanTwo(i, j, [Symbol(k)] + "=");
    ScanSymbol(k, "=", Scanner(2, j % 16, 0));
    LastPad(Scanner(3, k % 4, 0));
    LastThree(Symbol(i), Symbol(j), Symbol(k));
    assert [b] + [] == [b];
    assert [a] + [b] == [a, b];
  }

  /** An encoding uses the alphabet and pads only, so never the field separator. */
  lemma {:induction false} EncodeAvoidsDollar(bs: seq<Byte>)
    ensures '$' !in Encode(bs)
  {
    if |bs| > 2 {
      EncodeAvoidsDollar(bs[3..]);
      SymbolIndex(bs[0] / 4);
      SymbolIndex(bs[0] % 4 * 16 + bs[1] / 16);
      SymbolIndex(bs[1] % 16 * 4 + bs[2] / 64);
      SymbolIndex(bs[2] % 64);
    }
  }

  // ----- which strings decode -----

  predicate IsSymbol(c: char) {
    'A' <= c <= 'Z' || 'a' <= c <= 'z' || '0' <= c <= '9' || c == '+' || c == '/'
  }

  predicate AllSymbols(s: string) {
    forall i :: 0 <= i < |s| ==> IsSymbol(s[i])
  }

  lemma ScanSkips(c: char, rest: string, sc: Scanner)
    requires Fits(sc) && !IsSymbol(c) && c != '='
    ensures Scan([c] + rest, sc) == Scan(rest, sc)
  {
    assert ([c] + rest)[1..] == rest;
  }

  lemma {:induction false} ScanIgnores(a: string, c: char, b: string, sc: Scanner)
    requires Fits(sc) && !IsSymbol(c) && c != '='
    ensures Scan(a + [c] + b, sc) == Scan(a + b, sc)
    decreases |a|
  {
    if a == "" {
      assert a + [c] + b == [c] + b && a + b == b;
      ScanSkips(c, b, sc);
    } else {
      assert (a + [c] + b)[1..] == a[1..] + [c] + b && (a + b)[1..] == a[1..] + b;
      forall next | Fits(next) ensures Scan(a[1..] + [c] + b, next) == Scan(a[1..] + b, next) {
        ScanIgnores(a[1..], c, b, next);
      }
    }
  }

  /** Characters outside the alphabet, pads apart, change nothing wherever they stand. */
  lemma DecodeIgnores(a: string, c: char, b: string)
    requires !IsSymbol(c) && c != '='
    ensures Decode(a + [c] + b) == Decode(a + b)
  {
    ScanIgnores(a, c, b, START);
  }

  /** The bits left over after so many symbols of a group. */
  function BitsLeft(quad: nat): nat
    requires quad < 4
  {
    if quad == 0 then 0 else 8 - 2 * quad
  }

  /** What a run of symbols yields, and where it leaves the scanner. */
  function After(s: string, sc: Scanner): (r: (seq<Byte>, Scanner))
    requires Fits(sc) && AllSymbols(s)
    ensures Fits(r.1)
  {
    if s == "" then ([], sc)
    else
      var (bs, next) := Accept(sc, Index(s[0]).value);
      var (more, end) := After(s[1..], next);
      (bs + more, end)
  }

  /** One symbol moves on by one and brings six bits. */
  lemma AcceptMoves(sc: Scanner, i: Sextet)
    requires Fits(sc)
    ensures var (bs, next) := Accept(sc, i);
      && next.quad == (if sc.quad == 3 then 0 else sc.quad + 1) && next.pads == 0
      && 8 * |bs| + BitsLeft(next.quad) == BitsLeft(sc.quad) + 6
  {
  }

  lemma {:induction false} AfterMoves(s: string, sc: Scanner)
    requires Fits(sc) && AllSymbols(s)
    ensures var (bs, end) := After(s, sc);
      && end.quad == (sc.quad + |s|) % 4 && (sc.pads == 0 ==> end.pads == 0)
      && 8 * |bs| + BitsLeft(end.quad) == BitsLeft(sc.quad) + 6 * |s|
    decreases |s|
  {
    if s != "" {
      var i := Index(s[0]).value;
      AcceptMoves(sc, i);
      AfterMoves(s[1..], Accept(sc, i).1);
    }
  }

  lemma {:induction false} ScanSymbols(s: string, rest: string, sc: Scanner)
    requires Fits(sc) && AllSymbols(s)
    ensures Scan(s + rest, sc) == match Scan(rest, After(s, sc).1) case None => None case Some(t) => Some(After(s, sc).0 + t)
    decreases |s|
  {
    if s == "" {
      assert s + rest == rest;
      match Scan(rest, sc) {
        case None =>
        case Some(t) => assert [] + t == t;
      }
    } else {
      var (bs, next) := Accept(sc, Index(s[0]).value);
      assert (s + rest)[1..] == s[1..] + rest;
      ScanSymbols(s[1..], rest, next);
      match Scan(rest, After(s, sc).1) {
        case None =>
        case Some(t) => Associative(bs, After(s[1..], next).0, t);
      }
    }
  }

  function Pads(k: nat): string {
    seq(k, _ => '=')
  }

  /** Enough pads to complete the group end the input; whatever follows is not looked at. */
  lemma ScanPads(k: nat, rest: string, sc: Scanner)
    requires Fits(sc) && sc.pads == 0 && sc.quad >= 2 && k >= 4 - sc.quad
    ensures Scan(Pads(k) + rest, sc) == Some([])
  {
    assert (Pads(k) + rest)[0] == '=';
    if sc.quad == 2 {
      assert (Pads(k) + rest)[1..][0] == '=';
    }
  }

  lemma {:induction false} TooFewPads(k: nat, sc: Scanner)
    requires Fits(sc) && sc.pads == 0 && (sc.quad < 2 || k < 4 - sc.quad)
    ensures Scan(Pads(k), sc) == if sc.quad == 0 then Some([]) else None
    decreases k
  {
    if k > 0 {
      assert Pads(k)[1..] == Pads(k - 1);
      if sc.quad < 2 {
        TooFewPads(k - 1, sc);
      }
    }
  }

  /** Symbols followed by pads decode exactly when the last group is whole or has two or three
      symbols and at least the pads it lacks; then six bits a symbol make the bytes. */
  lemma PaddingExactly(s: string, k: nat)
    requires AllSymbols(s)
    ensures Decode(s + Pads(k)).Some? <==> |s| % 4 == 0 || (|s| % 4 == 2 && k >= 2) || (|s| % 4 == 3 && k >= 1)
    ensures Decode(s + Pads(k)).Some? ==> |Decode(s + Pads(k)).value| == 6 * |s| / 8
  {
    ScanSymbols(s, Pads(k), START);
    AfterMoves(s, START);
    var sc := After(s, START).1;
    if sc.quad >= 2 && k >= 4 - sc.quad {
      ScanPads(k, "", sc);
      assert Pads(k) + "" == Pads(k);
    } else {
      TooFewPads(k, sc);
    }
  }

  /** After a completed group of two or three symbols the rest of the string is ignored. */
  lemma NothingAfterPads(s: string, k: nat, rest: string)
    requires AllSymbols(s) && |s| % 4 >= 2 && k >= 4 - |s| % 4
    ensures Decode(s + Pads(k) + rest) == Decode(s + Pads(k))
  {
    var sc := After(s, START).1;
    AfterMoves(s, START);
    ScanSymbols(s, Pads(k), START);
    ScanSymbols(s, Pads(k) + rest, START);
    ScanPads(k, "", sc);
    ScanPads(k, rest, sc);
    assert Pads(k) + "" == Pads(k);
    Associative(s, Pads(k), rest);
  }
}
