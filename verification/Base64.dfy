// The base64 encoder of Languages/cpp/mail_wrapper/send_email.c against section 4 of RFC 4648.
//
// `Encode` is what the encoder writes, in two layers: bytes to six-bit pieces, pieces to characters.
// Two independent definitions stand beside it: the bit stream of the input cut into six-bit pieces,
// and a strict decoder that accepts a text exactly when it is an encoding.
module Base64 {

  type Sextet = x: bv8 | x < 64

  /** What one character of a base64 text stands for. */
  datatype Piece = Six(value: Sextet) | Pad | Alien

  // ----- pieces and characters

  /** Table 1 of RFC 4648, from value to character. */
  function Letter(n: nat): (c: char)
    requires n < 64
  {
    if n < 26 then (n + 'A' as int) as char
    else if n < 52 then (n - 26 + 'a' as int) as char
    else if n < 62 then (n - 52 + '0' as int) as char
    else if n == 62 then '+'
    else '/'
  }

  function Symbol(x: Sextet): (c: char) {
    Letter(x as int)
  }

  /** The same table from character to value; 64 stands for a character outside the alphabet. */
  function Rank(c: char): (n: nat)
    ensures n <= 64
  {
    if 'A' <= c <= 'Z' then c as int - 'A' as int
    else if 'a' <= c <= 'z' then c as int - 'a' as int + 26
    else if '0' <= c <= '9' then c as int - '0' as int + 52
    else if c == '+' then 62
    else if c == '/' then 63
    else 64
  }

  function Write(p: Piece): (c: char) {
    match p
    case Six(x) => Symbol(x)
    case Pad => '='
    case Alien => '\0'
  }

  function Read(c: char): (p: Piece) {
    if c == '=' then Pad
    else if Rank(c) == 64 then Alien
    else Narrow(Rank(c)); Six(Rank(c) as bv8)
  }

  lemma Wide(x: bv8)
    requires x >= 64
    ensures x as int >= 64
  {
  }

  lemma There(n: nat)
    requires n < 64
    ensures (n as bv8) as int == n
  {
  }

  lemma Narrow(n: nat)
    requires n < 64
    ensures (n as bv8) as int == n && n as bv8 < 64
  {
    There(n);
    if n as bv8 >= 64 {
      Wide(n as bv8);
    }
  }

  lemma SymbolRank(x: Sextet)
    ensures Rank(Symbol(x)) == x as int && Symbol(x) != '=' && Symbol(x) != '\0'
  {
  }

  /** The alphabet is read back as it was written, and holds neither the padding nor the terminator. */
  lemma ReadWrite(p: Piece)
    ensures Read(Write(p)) == p
    ensures Write(p) == '\0' <==> p == Alien
  {
    match p
    case Six(x) =>
      SymbolRank(x);
      assert (x as int) as bv8 == x;
    case Pad =>
    case Alien =>
  }

  lemma WriteRead(c: char)
    ensures Read(c) != Alien ==> Write(Read(c)) == c
  {
    if Rank(c) < 64 {
      Narrow(Rank(c));
    }
  }

  function Spell(ps: seq<Piece>): (t: string)
    ensures |t| == |ps|
  {
    seq(|ps|, i requires 0 <= i < |ps| => Write(ps[i]))
  }

  function Parse(t: string): (ps: seq<Piece>)
    ensures |ps| == |t|
  {
    seq(|t|, i requires 0 <= i < |t| => Read(t[i]))
  }

  lemma ParseSpell(ps: seq<Piece>)
    ensures Parse(Spell(ps)) == ps
  {
    forall i | 0 <= i < |ps| ensures Parse(Spell(ps))[i] == ps[i] {
      ReadWrite(ps[i]);
    }
  }

  lemma SpellParse(t: string)
    requires Alien !in Parse(t)
    ensures Spell(Parse(t)) == t
  {
    forall i | 0 <= i < |t| ensures Spell(Parse(t))[i] == t[i] {
      assert Parse(t)[i] in Parse(t);
      WriteRead(t[i]);
    }
  }

  // ----- bytes and pieces

  /** The four six-bit indices the encoder computes from up to three bytes. */
  function First(a: bv8): (x: Sextet) { a >> 2 }
  function Second(a: bv8, b: bv8): (x: Sextet) { ((a & 0x03) << 4) | (b >> 4) }
  function Third(b: bv8, c: bv8): (x: Sextet) { ((b & 0x0F) << 2) | (c >> 6) }
  function Fourth(c: bv8): (x: Sextet) { c & 0x3F }

  /** A whole group, or the last one: one byte and two pads, or two bytes and one pad. */
  function Pieces(s: seq<bv8>): (ps: seq<Piece>)
    ensures |ps| == (|s| + 2) / 3 * 4
  {
    if |s| == 0 then []
    else if |s| == 1 then [Six(First(s[0])), Six(Second(s[0], 0)), Pad, Pad]
    else if |s| == 2 then [Six(First(s[0])), Six(Second(s[0], s[1])), Six(Third(s[1], 0)), Pad]
    else [Six(First(s[0])), Six(Second(s[0], s[1])), Six(Third(s[1], s[2])), Six(Fourth(s[2]))] + Pieces(s[3..])
  }

  function Encode(s: seq<bv8>): (t: string)
    ensures |t| == (|s| + 2) / 3 * 4
  {
    Spell(Pieces(s))
  }

  lemma {:induction false} PiecesAppend(a: seq<bv8>, b: seq<bv8>)
    requires |a| % 3 == 0
    ensures Pieces(a + b) == Pieces(a) + Pieces(b)
  {
    if a == [] {
      assert a + b == b;
    } else {
      assert (a + b)[3..] == a[3..] + b;
      PiecesAppend(a[3..], b);
    }
  }

  /** Whole groups can be encoded apart. */
  lemma EncodeAppend(a: seq<bv8>, b: seq<bv8>)
    requires |a| % 3 == 0
    ensures Encode(a + b) == Encode(a) + Encode(b)
  {
    PiecesAppend(a, b);
  }

  lemma {:induction false} NoAlien(s: seq<bv8>)
    ensures Alien !in Pieces(s)
  {
    if |s| > 2 {
      NoAlien(s[3..]);
    }
  }

  /** The text holds no NUL, so the terminator the encoder writes is where a C string ends. */
  lemma NoTerminator(s: seq<bv8>)
    ensures '\0' !in Encode(s)
  {
    NoAlien(s);
    forall i | 0 <= i < |Encode(s)| ensures Encode(s)[i] != '\0' {
      assert Pieces(s)[i] in Pieces(s);
      ReadWrite(Pieces(s)[i]);
    }
  }

  // ----- a strict decoder

  datatype Option<T> = None | Some(value: T)

  function Byte0(w: Sextet, x: Sextet): (a: bv8) { (w << 2) | (x >> 4) }
  function Byte1(x: Sextet, y: Sextet): (b: bv8) { (x << 4) | (y >> 2) }
  function Byte2(y: Sextet, z: Sextet): (c: bv8) { (y << 6) | z }

  /** Padding may only stand in the last group, and the bits it cuts off must be zero (section 3.5 of RFC 4648). */
  function Unpack(ps: seq<Piece>): (r: Option<seq<bv8>>) {
    if |ps| == 0 then Some([])
    else if |ps| < 4 || !ps[0].Six? || !ps[1].Six? then None
    else
      var w, x := ps[0].value, ps[1].value;
      if ps[2].Six? && ps[3].Six? then
        match Unpack(ps[4..])
        case None => None
        case Some(rest) => Some([Byte0(w, x), Byte1(x, ps[2].value), Byte2(ps[2].value, ps[3].value)] + rest)
      else if |ps| > 4 || ps[3] != Pad then None
      else if ps[2].Six? && ps[2].value & 0x03 == 0 then Some([Byte0(w, x), Byte1(x, ps[2].value)])
      else if ps[2] == Pad && x & 0x0F == 0 then Some([Byte0(w, x)])
      else None
  }

  function Decode(t: string): (r: Option<seq<bv8>>) {
    Unpack(Parse(t))
  }

  lemma BytesBack(a: bv8, b: bv8, c: bv8)
    ensures Byte0(First(a), Second(a, b)) == a
    ensures Byte1(Second(a, b), Third(b, c)) == b
    ensures Byte2(Third(b, c), Fourth(c)) == c
    ensures Second(a, 0) & 0x0F == 0 && Third(b, 0) & 0x03 == 0
  {
  }

  lemma SextetsBack(w: Sextet, x: Sextet, y: Sextet, z: Sextet)
    ensures First(Byte0(w, x)) == w && Second(Byte0(w, x), Byte1(x, y)) == x
    ensures Third(Byte1(x, y), Byte2(y, z)) == y && Fourth(Byte2(y, z)) == z
    ensures x & 0x0F == 0 ==> Second(Byte0(w, x), 0) == x
    ensures y & 0x03 == 0 ==> Third(Byte1(x, y), 0) == y
  {
  }

  lemma {:induction false} UnpackPieces(s: seq<bv8>)
    ensures Unpack(Pieces(s)) == Some(s)
  {
    if |s| > 0 {
      var b := if |s| > 1 then s[1] else 0;
      BytesBack(s[0], b, if |s| > 2 then s[2] else 0);
      if |s| > 2 {
        assert Pieces(s)[4..] == Pieces(s[3..]);
        UnpackPieces(s[3..]);
        assert s == [s[0], s[1], s[2]] + s[3..];
      } else {
        assert s == if |s| == 1 then [s[0]] else [s[0], s[1]];
      }
    }
  }

  lemma {:induction false} PiecesUnpack(ps: seq<Piece>)
    requires Unpack(ps).Some?
    ensures Pieces(Unpack(ps).value) == ps
  {
    if |ps| > 0 {
      var w, x := ps[0].value, ps[1].value;
      if ps[2].Six? && ps[3].Six? {
        SextetsBack(w, x, ps[2].value, ps[3].value);
        PiecesUnpack(ps[4..]);
        assert Unpack(ps).value[3..] == Unpack(ps[4..]).value;
      } else {
        SextetsBack(w, x, if ps[2].Six? then ps[2].value else 0, 0);
      }
    }
  }

  /** The decoder answers s on exactly one text, the encoding of s: round trip both ways, and no two inputs share
      a text. */
  lemma DecodesExactly(t: string, s: seq<bv8>)
    ensures Decode(t) == Some(s) <==> t == Encode(s)
  {
    UnpackPieces(s);
    ParseSpell(Pieces(s));
    if Decode(t) == Some(s) {
      PiecesUnpack(Parse(t));
      NoAlien(s);
      SpellParse(t);
    }
  }

  // ----- the bit stream

  predicate BitOf(b: bv8, i: nat)
    requires i < 8
  {
    (if i == 0 then b & 0x80 else if i == 1 then b & 0x40 else if i == 2 then b & 0x20 else if i == 3 then b & 0x10
     else if i == 4 then b & 0x08 else if i == 5 then b & 0x04 else if i == 6 then b & 0x02 else b & 0x01) != 0
  }

  /** Bit k of the input, most significant first, followed by zeros. */
  predicate StreamBit(s: seq<bv8>, k: nat) {
    k / 8 < |s| && BitOf(s[k / 8], k % 8)
  }

  predicate SixBit(x: Sextet, i: nat)
    requires i < 6
  {
    BitOf(x, i + 2)
  }

  /** Piece j carries bits 6j to 6j + 5 of the stream, and is padding once the stream has ended. */
  predicate Carries(s: seq<bv8>, j: nat, p: Piece) {
    if 6 * j < 8 * |s| then
      p.Six? && forall i: nat :: i < 6 ==> SixBit(p.value, i) == StreamBit(s, 6 * j + i)
    else
      p == Pad
  }

  predicate CutsStream(s: seq<bv8>, ps: seq<Piece>) {
    |ps| == (|s| + 2) / 3 * 4 && forall j :: 0 <= j < |ps| ==> Carries(s, j, ps[j])
  }

  lemma GroupBits(a: bv8, b: bv8, c: bv8, i: nat)
    requires i < 6
    ensures SixBit(First(a), i) == BitOf(a, i)
    ensures SixBit(Second(a, b), i) == if i < 2 then BitOf(a, 6 + i) else BitOf(b, i - 2)
    ensures SixBit(Third(b, c), i) == if i < 4 then BitOf(b, 4 + i) else BitOf(c, i - 4)
    ensures SixBit(Fourth(c), i) == BitOf(c, 2 + i)
  {
  }

  lemma SameBits(x: Sextet, y: Sextet)
    requires forall i: nat :: i < 6 ==> SixBit(x, i) == SixBit(y, i)
    ensures x == y
  {
    assert SixBit(x, 0) == SixBit(y, 0) && SixBit(x, 1) == SixBit(y, 1) && SixBit(x, 2) == SixBit(y, 2);
    assert SixBit(x, 3) == SixBit(y, 3) && SixBit(x, 4) == SixBit(y, 4) && SixBit(x, 5) == SixBit(y, 5);
  }

  lemma CarriesOne(s: seq<bv8>, j: nat, p: Piece, q: Piece)
    requires Carries(s, j, p) && Carries(s, j, q)
    ensures p == q
  {
    if 6 * j < 8 * |s| {
      SameBits(p.value, q.value);
    }
  }

  /** Byte n of the input, or zero beyond its end. */
  function Byte(s: seq<bv8>, n: nat): bv8 {
    if n < |s| then s[n] else 0
  }

  lemma StreamByte(s: seq<bv8>, n: nat, i: nat)
    requires i < 8
    ensures StreamBit(s, 8 * n + i) == BitOf(Byte(s, n), i)
  {
    assert (8 * n + i) / 8 == n && (8 * n + i) % 8 == i;
  }

  lemma GroupStream(s: seq<bv8>, i: nat)
    requires i < 6
    ensures SixBit(First(Byte(s, 0)), i) == StreamBit(s, i)
    ensures SixBit(Second(Byte(s, 0), Byte(s, 1)), i) == StreamBit(s, 6 + i)
    ensures SixBit(Third(Byte(s, 1), Byte(s, 2)), i) == StreamBit(s, 12 + i)
    ensures SixBit(Fourth(Byte(s, 2)), i) == StreamBit(s, 18 + i)
  {
    GroupBits(Byte(s, 0), Byte(s, 1), Byte(s, 2), i);
    StreamByte(s, 0, i);
    StreamByte(s, if i < 2 then 0 else 1, if i < 2 then 6 + i else i - 2);
    StreamByte(s, if i < 4 then 1 else 2, if i < 4 then 4 + i else i - 4);
    StreamByte(s, 2, 2 + i);
  }

  lemma GroupCarries(s: seq<bv8>)
    requires |s| > 0
    ensures Carries(s, 0, Six(First(Byte(s, 0)))) && Carries(s, 1, Six(Second(Byte(s, 0), Byte(s, 1))))
    ensures Carries(s, 2, if |s| > 1 then Six(Third(Byte(s, 1), Byte(s, 2))) else Pad)
    ensures Carries(s, 3, if |s| > 2 then Six(Fourth(Byte(s, 2))) else Pad)
  {
    forall i: nat | i < 6
      ensures SixBit(First(Byte(s, 0)), i) == StreamBit(s, i)
      ensures SixBit(Second(Byte(s, 0), Byte(s, 1)), i) == StreamBit(s, 6 + i)
      ensures SixBit(Third(Byte(s, 1), Byte(s, 2)), i) == StreamBit(s, 12 + i)
      ensures SixBit(Fourth(Byte(s, 2)), i) == StreamBit(s, 18 + i)
    {
      GroupStream(s, i);
    }
  }

  lemma FirstGroup(s: seq<bv8>, j: nat)
    requires j < 4 && j < |Pieces(s)|
    ensures Carries(s, j, Pieces(s)[j])
  {
    GroupCarries(s);
    assert j == 0 || j == 1 || j == 2 || j == 3;
  }

  lemma ThreeBytesOn(s: seq<bv8>, k: nat)
    requires |s| >= 3
    ensures StreamBit(s, k + 24) == StreamBit(s[3..], k)
  {
    assert (k + 24) / 8 == k / 8 + 3 && (k + 24) % 8 == k % 8;
  }

  lemma CarriesShift(s: seq<bv8>, j: nat, p: Piece)
    requires |s| >= 3 && Carries(s[3..], j, p)
    ensures Carries(s, j + 4, p)
  {
    forall i: nat | i < 6 && p.Six? ensures SixBit(p.value, i) == StreamBit(s, 6 * (j + 4) + i) {
      ThreeBytesOn(s, 6 * j + i);
    }
  }

  lemma {:induction false} PiecesCarry(s: seq<bv8>, j: nat)
    requires j < |Pieces(s)|
    ensures Carries(s, j, Pieces(s)[j])
  {
    if j < 4 {
      FirstGroup(s, j);
    } else {
      PiecesCarry(s[3..], j - 4);
      CarriesShift(s, j - 4, Pieces(s)[j]);
    }
  }

  /** The encoder's pieces are the input's bits taken six at a time, and nothing else is. */
  lemma PiecesCutStream(s: seq<bv8>, ps: seq<Piece>)
    ensures ps == Pieces(s) <==> CutsStream(s, ps)
  {
    forall j | 0 <= j < |Pieces(s)| ensures Carries(s, j, Pieces(s)[j]) {
      PiecesCarry(s, j);
    }
    if CutsStream(s, ps) {
      forall j | 0 <= j < |ps| ensures ps[j] == Pieces(s)[j] {
        CarriesOne(s, j, ps[j], Pieces(s)[j]);
      }
    }
  }

  /** A character is the padding exactly if the input has no bit left for it. */
  lemma PadsBehind(s: seq<bv8>, i: nat)
    requires i < |Encode(s)|
    ensures Encode(s)[i] == '=' <==> 6 * i >= 8 * |s|
  {
    PiecesCarry(s, i);
    if Pieces(s)[i].Six? {
      SymbolRank(Pieces(s)[i].value);
    }
  }

  lemma EncodeThree(a: bv8, b: bv8, c: bv8)
    ensures Encode([a, b, c]) == [Symbol(First(a)), Symbol(Second(a, b)), Symbol(Third(b, c)), Symbol(Fourth(c))]
  {
  }

  /** Vectors of section 10 of RFC 4648, and one that needs the last two symbols of the alphabet. */
  lemma Vectors()
    ensures Encode([0x66]) == "Zg==" && Encode([0x66, 0x6F]) == "Zm8=" && Encode([0x66, 0x6F, 0x6F]) == "Zm9v"
    ensures Encode([0x66, 0x6F, 0x6F, 0x62, 0x61, 0x72]) == "Zm9vYmFy"
    ensures Encode([0xFB, 0xFF]) == "+/8="
  {
    var foo: seq<bv8>, bar: seq<bv8> := [0x66, 0x6F, 0x6F], [0x62, 0x61, 0x72];
    assert foo + bar == [0x66, 0x6F, 0x6F, 0x62, 0x61, 0x72];
    EncodeThree(0x66, 0x6F, 0x6F);
    EncodeThree(0x62, 0x61, 0x72);
    EncodeAppend(foo, bar);
  }

  // ----- the encoder

  const ROWS := ["ABCDEFGH", "IJKLMNOP", "QRSTUVWX", "YZabcdef", "ghijklmn", "opqrstuv", "wxyz0123", "456789+/"]

  const LOW := ROWS[0] + ROWS[1] + ROWS[2] + ROWS[3]
  const HIGH := ROWS[4] + ROWS[5] + ROWS[6] + ROWS[7]

  /** base64tab without its terminator. */
  const TABLE := LOW + HIGH

  predicate RowIs(row: string, first: nat)
    requires first <= 56
  {
    && |row| == 8
    && row[0] == Letter(first) && row[1] == Letter(first + 1) && row[2] == Letter(first + 2)
    && row[3] == Letter(first + 3) && row[4] == Letter(first + 4) && row[5] == Letter(first + 5)
    && row[6] == Letter(first + 6) && row[7] == Letter(first + 7)
  }

  lemma RowsAre()
    ensures RowIs(ROWS[0], 0) && RowIs(ROWS[1], 8) && RowIs(ROWS[2], 16) && RowIs(ROWS[3], 24)
    ensures RowIs(ROWS[4], 32) && RowIs(ROWS[5], 40) && RowIs(ROWS[6], 48) && RowIs(ROWS[7], 56)
  {
  }

  lemma RowOf(row: nat)
    requires row < 8
    ensures RowIs(ROWS[row], 8 * row)
  {
    RowsAre();
    assert row == 0 || row == 1 || row == 2 || row == 3 || row == 4 || row == 5 || row == 6 || row == 7;
  }

  lemma CellOf(row: string, first: nat, col: nat)
    requires first <= 56 && col < 8 && RowIs(row, first)
    ensures row[col] == Letter(first + col)
  {
    assert col == 0 || col == 1 || col == 2 || col == 3 || col == 4 || col == 5 || col == 6 || col == 7;
  }

  lemma FourRows(a: string, b: string, c: string, d: string, col: nat)
    requires |a| == |b| == |c| == |d| == 8 && col < 8
    ensures var t := a + b + c + d;
            |t| == 32 && t[col] == a[col] && t[8 + col] == b[col] && t[16 + col] == c[col] && t[24 + col] == d[col]
  {
  }

  lemma LowAt(row: nat, col: nat)
    requires row < 8 && col < 8
    ensures |LOW| == 32 && (row < 4 ==> LOW[8 * row + col] == ROWS[row][col])
  {
    FourRows(ROWS[0], ROWS[1], ROWS[2], ROWS[3], col);
    assert row < 4 ==> row == 0 || row == 1 || row == 2 || row == 3;
  }

  lemma HighAt(row: nat, col: nat)
    requires row < 8 && col < 8
    ensures |HIGH| == 32 && (row >= 4 ==> HIGH[8 * (row - 4) + col] == ROWS[row][col])
  {
    FourRows(ROWS[4], ROWS[5], ROWS[6], ROWS[7], col);
    assert row >= 4 ==> row == 4 || row == 5 || row == 6 || row == 7;
  }

  lemma TableAt(row: nat, col: nat)
    requires row < 8 && col < 8
    ensures |TABLE| == 64 && TABLE[8 * row + col] == ROWS[row][col]
  {
    LowAt(row, col);
    HighAt(row, col);
  }

  /** The source's table is Table 1 of RFC 4648. */
  lemma TableIs(n: nat)
    requires n < 64
    ensures |TABLE| == 64 && TABLE[n] == Letter(n)
  {
    var row, col := n / 8, n % 8;
    TableAt(row, col);
    RowOf(row);
    CellOf(ROWS[row], 8 * row, col);
  }

  /** base64tab[x] */
  method Lookup(x: Sextet) returns (c: char)
    ensures c == Symbol(x)
  {
    var n := x as int;
    TableIs(n);
    c := TABLE[n];
  }

  // A C int.
  const INT_MAX := 0x7FFF_FFFF

  /** One turn of the main loop: three bytes at i become four characters at o. */
  method EncodeGroup(input: seq<bv8>, i: nat, out: array<char>, o: nat)
    requires i + 3 <= |input| && o + 4 <= out.Length
    modifies out
    ensures out[..] == old(out[..o]) + Encode(input[i..i + 3]) + old(out[o + 4..])
  {
    out[o] := Lookup(First(input[i]));
    out[o + 1] := Lookup(Second(input[i], input[i + 1]));
    out[o + 2] := Lookup(Third(input[i + 1], input[i + 2]));
    out[o + 3] := Lookup(Fourth(input[i + 2]));
  }

  function CString(s: seq<bv8>): (c: string) {
    Encode(s) + ['\0']
  }

  /** After the loop: the one or two bytes that are left with their padding, and the terminator. */
  method EncodeRest(input: seq<bv8>, i: nat, ilen: int, out: array<char>, o: nat)
    requires 0 <= ilen < 3 && i + ilen <= |input|
    requires o + (if ilen == 0 then 0 else 4) < out.Length
    modifies out
    ensures var c := CString(input[i..i + ilen]);
            o + |c| <= out.Length && out[..] == old(out[..o]) + c + old(out[o + |c|..])
  {
    if ilen == 0 {
      out[o] := '\0';
    } else {
      out[o] := Lookup(First(input[i]));
      if ilen == 1 {
        out[o + 1] := Lookup(Second(input[i], 0));
        out[o + 2] := '=';
      } else {
        out[o + 1] := Lookup(Second(input[i], input[i + 1]));
        out[o + 2] := Lookup(Third(input[i + 1], 0));
      }
      out[o + 3] := '=';
      out[o + 4] := '\0';
    }
  }

  lemma WriteMore(was: string, text: string, more: string, now: string)
    requires |text| + |more| <= |was|
    requires var mid := text + was[|text|..]; now == mid[..|text|] + more + mid[|text| + |more|..]
    ensures now == (text + more) + was[|text + more|..]
  {
    var mid := text + was[|text|..];
    assert mid[..|text|] == text;
    assert mid[|text| + |more|..] == was[|text| + |more|..];
  }

  lemma EncodeMore(input: seq<bv8>, i: nat, n: nat)
    requires i % 3 == 0 && i + n <= |input|
    ensures Encode(input[..i + n]) == Encode(input[..i]) + Encode(input[i..i + n])
  {
    EncodeAppend(input[..i], input[i..i + n]);
    assert input[..i + n] == input[..i] + input[i..i + n];
  }

  lemma EncodeRestMore(input: seq<bv8>, i: nat)
    requires i % 3 == 0 && i <= |input|
    ensures Encode(input[..i]) + CString(input[i..]) == CString(input)
  {
    EncodeMore(input, i, |input| - i);
    assert input[..|input|] == input;
  }

  lemma GroupFits(i: nat, n: nat)
    requires i % 3 == 0 && i + 3 <= n
    ensures (i + 2) / 3 * 4 + 4 <= (n + 2) / 3 * 4
  {
    assert (i + 2) / 3 + 1 <= (n + 2) / 3;
  }

  /** The group at i goes behind the text of the groups before it. */
  method EncodeOn(input: seq<bv8>, i: nat, out: array<char>, o: nat, ghost was: string)
    requires i % 3 == 0 && i + 3 <= |input| && o == |Encode(input[..i])| && o + 4 <= out.Length == |was|
    requires out[..] == Encode(input[..i]) + was[o..]
    modifies out
    ensures |Encode(input[..i + 3])| == o + 4 && out[..] == Encode(input[..i + 3]) + was[o + 4..]
  {
    EncodeGroup(input, i, out, o);
    WriteMore(was, Encode(input[..i]), Encode(input[i..i + 3]), out[..]);
    EncodeMore(input, i, 3);
  }

  /** The main loop. */
  method EncodeWhole(input: seq<bv8>, ilen: int, out: array<char>) returns (i: nat, o: nat, left: int)
    requires 0 <= ilen == |input| && (ilen + 2) / 3 * 4 <= out.Length
    modifies out
    ensures 0 <= left < 3 && i + left == ilen && i % 3 == 0 && o == |Encode(input[..i])| <= out.Length
    ensures out[..] == Encode(input[..i]) + old(out[o..])
  {
    i, o, left := 0, 0, ilen;
    while left >= 3
      invariant i + left == ilen && i % 3 == 0 && left >= 0
      invariant o == |Encode(input[..i])| <= out.Length && out[..] == Encode(input[..i]) + old(out[o..])
    {
      GroupFits(i, ilen);
      EncodeOn(input, i, out, o, old(out[..]));
      o, i, left := o + 4, i + 3, left - 3;
    }
  }

  method EncodeAll(input: seq<bv8>, ilen: int, out: array<char>)
    requires 0 <= ilen == |input| && |CString(input)| <= out.Length
    modifies out
    ensures out[..] == CString(input) + old(out[|CString(input)|..])
  {
    var i, o, left := EncodeWhole(input, ilen, out);
    assert i + left == |input|;
    EncodeRestMore(input, i);
    EncodeRest(input, i, left, out, o);
    assert input[i..i + left] == input[i..];
    WriteMore(old(out[..]), Encode(input[..i]), CString(input[i..]), out[..]);
  }

  lemma TextReads(input: seq<bv8>, convlen: nat, out: array<char>)
    requires convlen == |Encode(input)| < out.Length && out[..convlen + 1] == CString(input)
    ensures forall i :: 0 <= i <= convlen ==> (out[i] == '\0' <==> i == convlen)
    ensures forall i :: 0 <= i < convlen ==> (out[i] == '=' <==> 6 * i >= 8 * |input|)
  {
    NoTerminator(input);
    forall i | 0 <= i <= convlen
      ensures out[i] == '\0' <==> i == convlen
      ensures i < convlen ==> (out[i] == '=' <==> 6 * i >= 8 * |input|)
    {
      assert out[i] == out[..convlen + 1][i] == CString(input)[i];
      if i < convlen {
        assert CString(input)[i] == Encode(input)[i];
        PadsBehind(input, i);
      }
    }
  }

  /**
   * base64_encode. The text and its terminator fit exactly when the length computed up front is below outlen;
   * otherwise nothing is written. Nothing behind the terminator is touched.
   */
  method Encoder(input: seq<bv8>, ilen: int, out: array<char>, outlen: int) returns (convlen: int)
    requires 0 <= ilen == |input| && (ilen + 2) / 3 * 4 <= INT_MAX
    requires outlen <= out.Length
    modifies out
    ensures convlen == if |Encode(input)| < outlen then |Encode(input)| else -1
    ensures convlen == -1 ==> out[..] == old(out[..])
    ensures convlen != -1 ==> out[..] == CString(input) + old(out[convlen + 1..])
    ensures convlen != -1 ==> forall i :: 0 <= i <= convlen ==> (out[i] == '\0' <==> i == convlen)
    ensures convlen != -1 ==> forall i :: 0 <= i < convlen ==> (out[i] == '=' <==> 6 * i >= 8 * |input|)
  {
    convlen := (ilen + 2) / 3 * 4;
    if convlen >= outlen {
      return -1;
    }
    EncodeAll(input, ilen, out);
    TextReads(input, convlen, out);
  }
}
