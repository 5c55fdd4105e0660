/** util_base64_encode and util_base64_decode. */
module Base64 {
  import opened Wrappers

  newtype Byte = x: int | 0 <= x < 256

  const LF: Byte := 10
  const PAD: Byte := 61   // '='
  const LINE: nat := 72

  // ------------------------------------------------------------- the alphabet

  /** base64_table: A-Z, a-z, 0-9, + and /. */
  function Symbol(v: Byte): (c: Byte)
    requires v < 64
  {
    if v < 26 then 65 + v else if v < 52 then 97 + (v - 26) else if v < 62 then 48 + (v - 52)
    else if v == 62 then 43 else 47
  }

  const NONE: Byte := 0x80

  /** The place of a character in the alphabet, or NONE. */
  function Rank(c: Byte): (v: Byte) {
    if 65 <= c <= 90 then c - 65 else if 97 <= c <= 122 then c - 97 + 26
    else if 48 <= c <= 57 then c - 48 + 52 else if c == 43 then 62 else if c == 47 then 63 else NONE
  }

  lemma {:induction false} RankSymbol(c: Byte, v: Byte)
    requires v < 64
    ensures Rank(c) == v <==> Symbol(v) == c
  {
  }

  /** The table as the encoder indexes it. */
  function Table(): (t: seq<Byte>)
    ensures |t| == 64
  {
    seq(64, (v: nat) requires v < 64 => Symbol(v as Byte))
  }

  /** The decoding table: 0 for the padding, and NONE for what is not a symbol. */
  function Inverse(): (d: seq<Byte>)
    ensures Entries(d)
  {
    seq(256, (c: nat) requires c < 256 => if c as Byte == PAD then 0 else Rank(c as Byte))
  }

  predicate Entries(d: seq<Byte>) {
    |d| == 256 && forall c: Byte :: d[c] == NONE || d[c] < 64
  }

  type Alphabet = t: seq<Byte> | |t| == 64 witness Table()

  type Decoder = d: seq<Byte> | Entries(d) witness Inverse()

  /** What the coders need to know of an alphabet t and a decoding table d. */
  ghost predicate Agree(t: Alphabet, d: Decoder) {
    d[PAD] == 0 && d[LF] == NONE && forall v: Byte | v < 64 :: Paired(t, d, v)
  }

  ghost predicate Paired(t: Alphabet, d: Decoder, v: Byte)
    requires v < 64
  {
    d[t[v]] == v && t[v] != PAD
  }

  lemma {:induction false} TablesAgree()
    ensures Agree(Table(), Inverse())
  {
    forall v: Byte | v < 64
      ensures Paired(Table(), Inverse(), v)
    {
      RankSymbol(Symbol(v), v);
    }
  }

  lemma {:induction false} Capitals(v: nat)
    requires v < 26
    ensures "ABCDEFGHIJKLMNOPQRSTUVWXYZ"[v] as int == 65 + v
  {
  }

  lemma {:induction false} SmallLetters(v: nat)
    requires v < 26
    ensures "abcdefghijklmnopqrstuvwxyz"[v] as int == 97 + v
  {
  }

  lemma {:induction false} NumeralsAndSigns(v: nat)
    requires v < 12
    ensures "0123456789+/"[v] as int == if v < 10 then 48 + v else if v == 10 then 43 else 47
  {
  }

  /** The table spelled out. */
  lemma {:induction false} TableIsAlphabet(v: nat)
    requires v < 64
    ensures var alphabet := "ABCDEFGHIJKLMNOPQRSTUVWXYZ" + "abcdefghijklmnopqrstuvwxyz" + "0123456789+/";
            |alphabet| == 64 && Table()[v] as int == alphabet[v] as int
  {
    if v < 26 {
      Capitals(v);
    } else if v < 52 {
      SmallLetters(v - 26);
    } else {
      NumeralsAndSigns(v - 52);
    }
  }

  /** The characters that count for the decoder: the alphabet and the padding. */
  predicate IsLetter(c: Byte) {
    var ch := c as int as char;
    'A' <= ch <= 'Z' || 'a' <= ch <= 'z' || '0' <= ch <= '9' || ch == '+' || ch == '/' || ch == '='
  }

  lemma {:induction false} InverseIsLetters(c: Byte)
    ensures Inverse()[c] == NONE <==> !IsLetter(c)
  {
  }

  /** The decoding table, filled from the alphabet. */
  method DecodingTable(t: Alphabet) returns (dtable: seq<Byte>)
    requires t == Table()
    ensures dtable == Inverse()
  {
    dtable := seq(256, _ => NONE);
    var i: Byte := 0;
    while i < 64
      invariant i <= 64 && |dtable| == 256
      invariant forall c: Byte :: dtable[c] == if Rank(c) < i then Rank(c) else NONE
    {
      forall c: Byte
        ensures Rank(c) == i <==> c == Symbol(i)
      {
        RankSymbol(c, i);
      }
      dtable := dtable[t[i] := i];
      i := i + 1;
    }
    dtable := dtable[PAD := 0];
    forall c: nat | c < 256
      ensures dtable[c] == Inverse()[c]
    {
      assert dtable[c] == if c as Byte == PAD then 0 else Rank(c as Byte);
    }
  }

  // ------------------------------------------------------------------ encoding

  /** The four characters of a block.  The shifted parts share no bits, so their
      bitwise or is a sum. */
  function Quad(t: Alphabet, a: Byte, b: Byte, c: Byte): (q: seq<Byte>)
    ensures |q| == 4
  {
    [t[a / 4], t[a % 4 * 16 + b / 16], t[b % 16 * 4 + c / 64], t[c % 64]]
  }

  /** In eight bits, the encoder's shifts, masks and ors are those quotients,
      remainders and sums. */
  lemma {:induction false} EncoderBits(a: bv8, b: bv8, c: bv8)
    ensures a >> 2 == a / 4 && c & 0x3f == c % 64
    ensures ((a & 0x03) << 4) | (b >> 4) == a % 4 * 16 + b / 16
    ensures ((b & 0x0f) << 2) | (c >> 6) == b % 16 * 4 + c / 64
  {
  }

  /** The characters of the last one or two bytes. */
  function Last(t: Alphabet, src: seq<Byte>): (q: seq<Byte>)
    requires 0 < |src| < 3
    ensures |q| == 4
  {
    if |src| == 1 then [t[src[0] / 4], t[src[0] % 4 * 16], PAD, PAD]
    else [t[src[0] / 4], t[src[0] % 4 * 16 + src[1] / 16], t[src[1] % 16 * 4], PAD]
  }

  /** A block is the four base-64 digits of the 24-bit number that its bytes make up. */
  lemma {:induction false} QuadIsNumber(t: Alphabet, a: Byte, b: Byte, c: Byte, v: seq<Byte>)
    requires |v| == 4 && forall i | 0 <= i < 4 :: v[i] < 64
    requires (a as int * 256 + b as int) * 256 + c as int ==
             ((v[0] as int * 64 + v[1] as int) * 64 + v[2] as int) * 64 + v[3] as int
    ensures Quad(t, a, b, c) == [t[v[0]], t[v[1]], t[v[2]], t[v[3]]]
  {
    Digits(a as int, b as int, c as int, v[0] as int, v[1] as int, v[2] as int, v[3] as int);
  }

  lemma {:induction false} Digits(a: nat, b: nat, c: nat, v0: nat, v1: nat, v2: nat, v3: nat)
    requires a < 256 && b < 256 && c < 256 && v0 < 64 && v1 < 64 && v2 < 64 && v3 < 64
    requires (a * 256 + b) * 256 + c == ((v0 * 64 + v1) * 64 + v2) * 64 + v3
    ensures v0 == a / 4 && v1 == a % 4 * 16 + b / 16 && v2 == b % 16 * 4 + c / 64 && v3 == c % 64
  {
    assert a / 4 == v0;
    assert (a % 4 * 256 + b) / 16 == v1;
    assert (b % 16 * 256 + c) / 64 == v2;
  }

  /** A last block is that of zero bytes to fill it up, with padding for the digits
      that hold none of the input. */
  lemma {:induction false} LastIsPadded(t: Alphabet, a: Byte, b: Byte)
    ensures Last(t, [a]) == Quad(t, a, 0, 0)[..2] + [PAD, PAD]
    ensures Last(t, [a, b]) == Quad(t, a, b, 0)[..3] + [PAD]
  {
  }

  /** The encoding without line feeds, section 4 of RFC 4648. */
  function Text(t: Alphabet, src: seq<Byte>): seq<Byte> {
    if src == [] then []
    else if |src| < 3 then Last(t, src)
    else Quad(t, src[0], src[1], src[2]) + Text(t, src[3..])
  }

  /** A text in lines of 72 characters, each ended by a line feed. */
  function Lines(text: seq<Byte>): seq<Byte> {
    if text == [] then []
    else if |text| <= LINE then text + [LF]
    else text[..LINE] + [LF] + Lines(text[LINE..])
  }

  lemma {:induction false} TextStep(t: Alphabet, a: Byte, b: Byte, c: Byte, rest: seq<Byte>)
    ensures Text(t, [a, b, c] + rest) == Quad(t, a, b, c) + Text(t, rest)
  {
    assert ([a, b, c] + rest)[3..] == rest;
  }

  lemma {:induction false} TextConcat(t: Alphabet, a: seq<Byte>, b: seq<Byte>)
    requires |a| % 3 == 0
    ensures Text(t, a + b) == Text(t, a) + Text(t, b)
  {
    if a == [] {
      assert a + b == b;
    } else {
      var x, rest := [a[0], a[1], a[2]], a[3..];
      TextConcat(t, rest, b);
      assert a == x + rest && a + b == x + (rest + b);
      TextStep(t, a[0], a[1], a[2], rest);
      TextStep(t, a[0], a[1], a[2], rest + b);
      Regroup(Quad(t, a[0], a[1], a[2]), Text(t, rest), Text(t, b));
    }
  }

  lemma {:induction false} Regroup(a: seq<Byte>, b: seq<Byte>, c: seq<Byte>)
    ensures a + (b + c) == a + b + c
  {
  }

  lemma {:induction false} TextLength(t: Alphabet, src: seq<Byte>)
    ensures |Text(t, src)| == (|src| + 2) / 3 * 4
  {
    if |src| >= 3 {
      TextLength(t, src[3..]);
    }
  }

  // -------------------------------------------------------------- buffer size

  /** The size for so many characters with line feeds and the terminator. */
  function WithFeeds(size: nat): nat {
    size + size / LINE + 1
  }

  /** The size that the encoder computes, in size_t arithmetic. */
  function BufferSize(len: nat): nat {
    WithFeeds(len * 4 % SIZE / 3 + 4)
  }

  lemma {:induction false} SizeUnwrapped(len: nat)
    requires len < SIZE / 4
    ensures BufferSize(len) == WithFeeds(len * 4 / 3 + 4)
  {
    assert len * 4 < SIZE && len * 4 % SIZE == len * 4;
  }

  /** The overflow test fires exactly when the first product wraps. */
  lemma {:induction false} OverflowExactly(len: nat)
    requires len < SIZE
    ensures BufferSize(len) < SIZE
    ensures BufferSize(len) < len <==> SIZE / 4 <= len
  {
    var x := Wrapped(len);
    assert x * 4 / 3 <= x + x / 3 + 1;
    var size := x * 4 / 3 + 4;
    assert size / LINE <= size / 64;
  }

  /** The part of the length that is left of the product. */
  lemma {:induction false} Wrapped(len: nat) returns (x: nat)
    requires len < SIZE
    ensures x < SIZE / 4 && len * 4 % SIZE == x * 4
    ensures if len < SIZE / 4 then x == len else x + SIZE / 4 <= len
  {
    var quarter := SIZE / 4;
    x := if len < quarter then len else if len < 2 * quarter then len - quarter
         else if len < 3 * quarter then len - 2 * quarter else len - 3 * quarter;
    var k := if len < quarter then 0 else if len < 2 * quarter then 1 else if len < 3 * quarter then 2 else 3;
    assert len * 4 == k * SIZE + x * 4;
  }

  // --------------------------------------------------------------- line breaks

  /** The text with a line feed after each full line, as it stands while it grows. */
  function Growing(text: seq<Byte>): seq<Byte> {
    if |text| < LINE then text else text[..LINE] + [LF] + Growing(text[LINE..])
  }

  lemma {:induction false} GrowingLength(text: seq<Byte>)
    ensures |Growing(text)| == |text| + |text| / LINE
  {
    if |text| >= LINE {
      GrowingLength(text[LINE..]);
    }
  }

  /** The last line feed makes the growing text the finished one. */
  lemma {:induction false} GrowingDone(text: seq<Byte>)
    ensures Lines(text) == if |text| % LINE == 0 then Growing(text) else Growing(text) + [LF]
  {
    if |text| == LINE {
      assert text[..LINE] == text && text[LINE..] == [];
    } else if |text| > LINE {
      GrowingDone(text[LINE..]);
    }
  }

  lemma {:induction false} GrowingStep(line: seq<Byte>, rest: seq<Byte>)
    requires |line| == LINE
    ensures Growing(line + rest) == line + [LF] + Growing(rest)
  {
    assert (line + rest)[..LINE] == line && (line + rest)[LINE..] == rest;
  }

  /** A block is appended, and a line feed when it ends the line. */
  lemma {:induction false} GrowingAppend(text: seq<Byte>, q: seq<Byte>)
    requires |q| == 4 && |text| % 4 == 0
    ensures Growing(text + q) == Growing(text) + if |text| % LINE == LINE - 4 then q + [LF] else q
  {
    if |text| >= LINE {
      GrowingAppend(text[LINE..], q);
      GrowingLonger(text[..LINE], text[LINE..], q, if |text| % LINE == LINE - 4 then q + [LF] else q);
      assert text == text[..LINE] + text[LINE..];
    } else {
      GrowingShort(text, q);
    }
  }

  lemma {:induction false} GrowingLonger(line: seq<Byte>, rest: seq<Byte>, q: seq<Byte>, end: seq<Byte>)
    requires |line| == LINE && Growing(rest + q) == Growing(rest) + end
    ensures Growing(line + rest + q) == Growing(line + rest) + end
  {
    GrowingStep(line, rest);
    GrowingStep(line, rest + q);
    Regroup(line, rest, q);
    Regroup(line + [LF], Growing(rest), end);
  }

  lemma {:induction false} GrowingShort(text: seq<Byte>, q: seq<Byte>)
    requires |q| == 4 && |text| % 4 == 0 && |text| < LINE
    ensures Growing(text + q) == Growing(text) + if |text| % LINE == LINE - 4 then q + [LF] else q
  {
    if |text| == LINE - 4 {
      GrowingStep(text + q, []);
      assert text + q + [] == text + q;
    }
  }

  /** Where the characters and the line feeds stand: lines of 72, each with a feed. */
  lemma {:induction false} LinesLayout(text: seq<Byte>, i: nat)
    requires i < |text|
    ensures |Lines(text)| == |text| + (|text| + 71) / 72
    ensures Lines(text)[i + i / 72] == text[i]
    ensures i % 72 == 71 || i == |text| - 1 ==> Lines(text)[i + i / 72 + 1] as int == '\n' as int
  {
    if |text| > 72 {
      var rest := text[72..];
      LinesLayout(rest, if i < 72 then 0 else i - 72);
    }
  }

  /** The last block always ends its line. */
  lemma {:induction false} LinesAppend(text: seq<Byte>, q: seq<Byte>)
    requires |q| == 4 && |text| % 4 == 0
    ensures Lines(text + q) == Growing(text) + q + [LF]
  {
    GrowingAppend(text, q);
    GrowingDone(text + q);
    var n := |text| / 4;
    LinePlace(n);
    assert |text + q| == 4 * (n + 1);
  }

  /** Characters, line feeds and the terminator always fit. */
  lemma {:induction false} LinesFit(t: Alphabet, src: seq<Byte>)
    requires |src| < SIZE / 4
    ensures var chars := (|src| + 2) / 3 * 4;
            |Lines(Text(t, src))| == chars + (chars + LINE - 1) / LINE < BufferSize(|src|)
  {
    TextLength(t, src);
    GrowingLength(Text(t, src));
    GrowingDone(Text(t, src));
    FeedsFit(|src|);
  }

  lemma {:induction false} FeedsFit(len: nat)
    requires len < SIZE / 4
    ensures var chars := (len + 2) / 3 * 4;
            chars + (chars + LINE - 1) / LINE < BufferSize(len)
  {
    var chars, size := (len + 2) / 3 * 4, len * 4 / 3 + 4;
    SizeUnwrapped(len);
    CharsFit(len);
    FeedsGrow(chars, size);
    assert (chars + LINE - 1) / LINE <= chars / LINE + 1;
  }

  lemma {:induction false} CharsFit(len: nat)
    ensures (len + 2) / 3 * 4 + 1 <= len * 4 / 3 + 4
  {
    var q, r := len / 3, len % 3;
    assert len == 3 * q + r && len * 4 / 3 == 4 * q + 4 * r / 3;
  }

  // --------------------------------------------------------------- the encoder

  /** Four characters written at `pos`. */
  method PutBlock(out: array<Byte>, pos: nat, q: seq<Byte>) returns (next: nat)
    requires |q| == 4 && pos + 4 <= out.Length
    modifies out
    ensures next == pos + 4 && out[..next] == old(out[..pos]) + q
  {
    out[pos], out[pos + 1], out[pos + 2], out[pos + 3] := q[0], q[1], q[2], q[3];
    next := pos + 4;
  }

  method PutFeed(out: array<Byte>, pos: nat) returns (next: nat)
    requires pos < out.Length
    modifies out
    ensures next == pos + 1 && out[..next] == old(out[..pos]) + [LF]
  {
    out[pos] := LF;
    next := pos + 1;
  }

  /** What is in the buffer after k blocks. */
  ghost predicate Written(t: Alphabet, src: seq<Byte>, k: nat, out: seq<Byte>, lineLen: nat) {
    && 3 * k <= |src| && |Text(t, src[..3 * k])| == 4 * k
    && out == Growing(Text(t, src[..3 * k])) && lineLen == 4 * k % LINE
  }

  lemma {:induction false} WrittenFits(t: Alphabet, src: seq<Byte>, k: nat, out: seq<Byte>, lineLen: nat)
    requires Written(t, src, k, out, lineLen) && |src| < SIZE / 4
    ensures |out| < BufferSize(|src|) && (3 * k < |src| ==> |out| + 5 < BufferSize(|src|))
    ensures lineLen != 0 ==> |out| + 1 < BufferSize(|src|)
  {
    GrowingLength(Text(t, src[..3 * k]));
    BlocksFit(|src|, k);
  }

  lemma {:induction false} TextBlock(t: Alphabet, src: seq<Byte>, k: nat)
    requires 3 * k + 3 <= |src|
    ensures Text(t, src[..3 * (k + 1)]) == Text(t, src[..3 * k]) + Quad(t, src[3 * k], src[3 * k + 1], src[3 * k + 2])
  {
    var block := [src[3 * k], src[3 * k + 1], src[3 * k + 2]];
    assert src[..3 * (k + 1)] == src[..3 * k] + block;
    TextConcat(t, src[..3 * k], block);
    TextStep(t, block[0], block[1], block[2], []);
    assert block + [] == block;
  }

  lemma {:induction false} TextRest(t: Alphabet, src: seq<Byte>, k: nat)
    requires 0 < |src| - 3 * k < 3
    ensures Text(t, src) == Text(t, src[..3 * k]) + Last(t, src[3 * k..])
  {
    var done, rest := src[..3 * k], src[3 * k..];
    TextConcat(t, done, rest);
    LastText(t, rest);
    assert done + rest == src;
  }

  lemma {:induction false} LastText(t: Alphabet, src: seq<Byte>)
    requires 0 < |src| < 3
    ensures Text(t, src) == Last(t, src)
  {
  }

  /** One more block, and a line feed when it ends its line. */
  lemma {:induction false} WrittenStep(t: Alphabet, src: seq<Byte>, k: nat, out: seq<Byte>, lineLen: nat)
    requires Written(t, src, k, out, lineLen) && 3 * k + 3 <= |src|
    ensures var q, i := Quad(t, src[3 * k], src[3 * k + 1], src[3 * k + 2]), lineLen + 4;
            if i >= LINE then Written(t, src, k + 1, out + q + [LF], 0) else Written(t, src, k + 1, out + q, i)
  {
    TextBlock(t, src, k);
    LineStep(Text(t, src[..3 * k]), Quad(t, src[3 * k], src[3 * k + 1], src[3 * k + 2]), k);
  }

  lemma {:induction false} LineStep(text: seq<Byte>, q: seq<Byte>, k: nat)
    requires |text| == 4 * k && |q| == 4
    ensures if 4 * k % LINE + 4 >= LINE then Growing(text + q) == Growing(text) + q + [LF] && 4 * (k + 1) % LINE == 0
            else Growing(text + q) == Growing(text) + q && 4 * (k + 1) % LINE == 4 * k % LINE + 4
  {
    LinePlace(k);
    GrowingAppend(text, q);
    Regroup(Growing(text), q, [LF]);
  }

  lemma {:induction false} LinePlace(k: nat)
    ensures 4 * k % LINE <= LINE - 4
    ensures 4 * (k + 1) % LINE == if 4 * k % LINE == LINE - 4 then 0 else 4 * k % LINE + 4
  {
    var q, r := k / 18, k % 18;
    assert 4 * k == LINE * q + 4 * r;
    LineRemainder(q, 4 * r);
    if r == 17 {
      LineRemainder(q + 1, 0);
    } else {
      LineRemainder(q, 4 * r + 4);
    }
  }

  lemma {:induction false} LineRemainder(q: nat, r: nat)
    requires r < LINE
    ensures (LINE * q + r) % LINE == r
  {
  }

  /** Without a rest, the text ends with the line feed of an open line. */
  lemma {:induction false} WrittenAll(t: Alphabet, src: seq<Byte>, k: nat, out: seq<Byte>, lineLen: nat)
    requires Written(t, src, k, out, lineLen) && |src| == 3 * k
    ensures Lines(Text(t, src)) == if lineLen == 0 then out else out + [LF]
  {
    var done := src[..3 * k];
    GrowingDone(Text(t, done));
    assert done == src;
  }

  /** A rest of one or two bytes makes the last block. */
  lemma {:induction false} WrittenRest(t: Alphabet, src: seq<Byte>, k: nat, out: seq<Byte>, lineLen: nat)
    requires Written(t, src, k, out, lineLen) && 0 < |src| - 3 * k < 3
    ensures Lines(Text(t, src)) == out + Last(t, src[3 * k..]) + [LF]
  {
    TextRest(t, src, k);
    LinesAppend(Text(t, src[..3 * k]), Last(t, src[3 * k..]));
  }

  /** Room after the first k blocks of `len` bytes. */
  lemma {:induction false} BlocksFit(len: nat, k: nat)
    requires len < SIZE / 4 && 3 * k <= len
    ensures var n := 4 * k + 4 * k / LINE;
            && n < BufferSize(len) && (3 * k < len ==> n + 5 < BufferSize(len))
            && (4 * k % LINE != 0 ==> n + 1 < BufferSize(len))
  {
    var size := len * 4 / 3 + 4;
    SizeUnwrapped(len);
    assert size >= 4 * k + 4 && (3 * k < len ==> size >= 4 * k + 5);
    FeedsGrow(4 * k, size);
  }

  lemma {:induction false} FeedsGrow(x: nat, y: nat)
    requires x <= y
    ensures x / LINE <= y / LINE
  {
  }

  /** The blocks of three bytes. */
  method EncodeBlocks(t: Alphabet, src: seq<Byte>, out: array<Byte>) returns (i: nat, pos: nat, lineLen: nat, ghost k: nat)
    requires |src| < SIZE / 4 && out.Length == BufferSize(|src|)
    modifies out
    ensures i == 3 * k && |src| - i < 3 && pos <= out.Length && Written(t, src, k, out[..pos], lineLen)
  {
    i, pos, lineLen, k := 0, 0, 0, 0;
    assert src[..0] == [];
    while |src| - i >= 3
      invariant i == 3 * k <= |src| && pos <= out.Length && Written(t, src, k, out[..pos], lineLen)
    {
      WrittenFits(t, src, k, out[..pos], lineLen);
      WrittenStep(t, src, k, out[..pos], lineLen);
      pos := PutBlock(out, pos, Quad(t, src[i], src[i + 1], src[i + 2]));
      i, k := i + 3, k + 1;
      lineLen := lineLen + 4;
      if lineLen >= LINE {
        pos := PutFeed(out, pos);
        lineLen := 0;
      }
    }
  }

  /** util_base64_encode: every write stays inside the buffer, and the result is the
      text in lines, with a terminator behind it. */
  method Encode(src: seq<Byte>) returns (out: array?<Byte>, outLen: nat)
    requires |src| < SIZE
    ensures out == null <==> 0x4000_0000_0000_0000 <= |src|
    ensures out != null ==> outLen < out.Length == BufferSize(|src|)
    ensures out != null ==> out[..outLen] == Lines(Text(Table(), src)) && out[outLen] == 0
  {
    out, outLen := EncodeWith(Table(), src);
  }

  method EncodeWith(t: Alphabet, src: seq<Byte>) returns (out: array?<Byte>, outLen: nat)
    requires |src| < SIZE
    ensures out == null <==> SIZE / 4 <= |src|
    ensures out != null ==> outLen < out.Length == BufferSize(|src|)
    ensures out != null ==> out[..outLen] == Lines(Text(t, src)) && out[outLen] == 0
  {
    OverflowExactly(|src|);
    if BufferSize(|src|) < |src| {
      return null, 0;
    }
    var buffer := new Byte[BufferSize(|src|)];
    var i, pos, lineLen;
    ghost var k;
    i, pos, lineLen, k := EncodeBlocks(t, src, buffer);
    WrittenFits(t, src, k, buffer[..pos], lineLen);
    if i == |src| {
      WrittenAll(t, src, k, buffer[..pos], lineLen);
    } else {
      WrittenRest(t, src, k, buffer[..pos], lineLen);
      pos := PutBlock(buffer, pos, Last(t, src[i..]));
      lineLen := lineLen + 4;
    }
    if lineLen != 0 {
      pos := PutFeed(buffer, pos);
    }
    buffer[pos] := 0;
    return buffer, pos;
  }

  // ------------------------------------------------------------------ decoding

  /** The characters that the decoder looks at: the alphabet and the padding. */
  function Symbols(d: Decoder, text: seq<Byte>): seq<Byte> {
    if text == [] then []
    else if d[text[0]] == NONE then Symbols(d, text[1..])
    else [text[0]] + Symbols(d, text[1..])
  }

  predicate Known(d: Decoder, s: seq<Byte>) {
    forall i | 0 <= i < |s| :: d[s[i]] != NONE
  }

  function Pads(block: seq<Byte>): nat {
    if block == [] then 0 else Pads(block[..|block| - 1]) + if block[|block| - 1] == PAD then 1 else 0
  }

  /** Three bytes from four table entries, each cut to eight bits. */
  function Triple(a: Byte, b: Byte, c: Byte, d: Byte): (t: seq<Byte>)
    requires a < 64 && b < 64 && c < 64 && d < 64
    ensures |t| == 3
  {
    [a * 4 + b / 16, b % 16 * 16 + c / 4, c % 4 * 64 + d]
  }

  /** In eight bits, the decoder's shifts and ors of six-bit entries are those products,
      quotients and sums. */
  lemma {:induction false} DecoderBits(a: bv8, b: bv8, c: bv8, d: bv8)
    requires a < 64 && b < 64 && c < 64 && d < 64
    ensures (a << 2) | (b >> 4) == a * 4 + b / 16
    ensures (b << 4) | (c >> 2) == b % 16 * 16 + c / 4
    ensures (c << 6) | d == c % 4 * 64 + d
  {
  }

  /** The bytes of a block of four characters. */
  function Bytes(d: Decoder, q: seq<Byte>): (t: seq<Byte>)
    requires |q| == 4 && Known(d, q)
    ensures |t| == 3
  {
    Triple(d[q[0]], d[q[1]], d[q[2]], d[q[3]])
  }

  /** The bytes of whole blocks, up to the first block with padding. */
  function Blocks(d: Decoder, s: seq<Byte>): Option<seq<Byte>>
    requires |s| % 4 == 0 && Known(d, s)
  {
    if s == [] then Some([])
    else
      var q, pads := Bytes(d, s[..4]), Pads(s[..4]);
      if pads == 0 then Prepend(q, Blocks(d, s[4..]))
      else if pads <= 2 then Some(q[..3 - pads])
      else None
  }

  function Prepend(u: seq<Byte>, o: Option<seq<Byte>>): Option<seq<Byte>> {
    match o
    case None => None
    case Some(v) => Some(u + v)
  }

  lemma {:induction false} SymbolsKnown(d: Decoder, text: seq<Byte>)
    ensures Known(d, Symbols(d, text))
  {
    if text != [] {
      SymbolsKnown(d, text[1..]);
    }
  }

  /** What a text stands for. */
  function Decoded(d: Decoder, text: seq<Byte>): Option<seq<Byte>> {
    SymbolsKnown(d, text);
    var s := Symbols(d, text);
    if s == [] || |s| % 4 != 0 then None else Blocks(d, s)
  }

  // ---------------------------------------------------------------- round trip

  /** A text of symbols only, with line feeds or without. */
  lemma {:induction false} SymbolsOfText(d: Decoder, text: seq<Byte>)
    requires Known(d, text)
    ensures Symbols(d, text) == text
  {
    if text != [] {
      SymbolsOfText(d, text[1..]);
    }
  }

  lemma {:induction false} SymbolsConcat(d: Decoder, a: seq<Byte>, b: seq<Byte>)
    ensures Symbols(d, a + b) == Symbols(d, a) + Symbols(d, b)
  {
    if a == [] {
      assert a + b == b;
    } else {
      var rest := a[1..];
      SymbolsConcat(d, rest, b);
      assert a + b == [a[0]] + (rest + b) && a == [a[0]] + rest;
      SymbolsStep(d, a[0], rest);
      SymbolsStep(d, a[0], rest + b);
      Regroup([a[0]], Symbols(d, rest), Symbols(d, b));
    }
  }

  lemma {:induction false} SymbolsStep(d: Decoder, c: Byte, rest: seq<Byte>)
    ensures Symbols(d, [c] + rest) == if d[c] == NONE then Symbols(d, rest) else [c] + Symbols(d, rest)
  {
    assert ([c] + rest)[1..] == rest;
  }

  /** Line feeds are skipped. */
  lemma {:induction false} SymbolsOfLines(d: Decoder, text: seq<Byte>)
    requires Known(d, text) && d[LF] == NONE
    ensures Symbols(d, Lines(text)) == text
  {
    assert Symbols(d, [LF]) == [];
    if text == [] {
    } else if |text| <= LINE {
      SymbolsOfText(d, text);
      SymbolsConcat(d, text, [LF]);
    } else {
      var line, rest := text[..LINE], text[LINE..];
      SymbolsOfText(d, line);
      SymbolsOfLines(d, rest);
      SymbolsConcat(d, line, [LF]);
      SymbolsConcat(d, line + [LF], Lines(rest));
      assert text == line + rest;
    }
  }

  /** The text of any bytes is symbols only. */
  lemma {:induction false} TextIsSymbols(t: Alphabet, d: Decoder, src: seq<Byte>)
    requires Agree(t, d)
    ensures Known(d, Text(t, src))
  {
    if |src| >= 3 {
      var a, b, c, rest := src[0], src[1], src[2], src[3..];
      TextIsSymbols(t, d, rest);
      QuadBytes(t, d, a, b, c);
      KnownConcat(d, Quad(t, a, b, c), Text(t, rest));
      TextStep(t, a, b, c, rest);
      assert src == [a, b, c] + rest;
    } else if src != [] {
      LastBytes(t, d, src);
      LastText(t, src);
    }
  }

  lemma {:induction false} KnownConcat(d: Decoder, a: seq<Byte>, b: seq<Byte>)
    requires Known(d, a) && Known(d, b)
    ensures Known(d, a + b)
  {
  }

  lemma {:induction false} PadsOfBlock(a: Byte, b: Byte, c: Byte, d: Byte)
    ensures Pads([a, b, c, d]) ==
            (if a == PAD then 1 else 0) + (if b == PAD then 1 else 0) +
            (if c == PAD then 1 else 0) + if d == PAD then 1 else 0
  {
    assert [a, b, c, d][..3] == [a, b, c] && [a, b, c][..2] == [a, b] && [a, b][..1] == [a] && [a][..0] == [];
    assert Pads([a]) == Pads([]) + if a == PAD then 1 else 0;
    assert Pads([a, b]) == Pads([a]) + if b == PAD then 1 else 0;
    assert Pads([a, b, c]) == Pads([a, b]) + if c == PAD then 1 else 0;
  }

  /** The six-bit groups of three bytes make up those bytes. */
  lemma {:induction false} TripleOfQuad(a: Byte, b: Byte, c: Byte)
    ensures Triple(a / 4, a % 4 * 16 + b / 16, b % 16 * 4 + c / 64, c % 64) == [a, b, c]
  {
    Joined(a as int, b as int, 4, 16);
    Joined(b as int, c as int, 16, 4);
  }

  /** The low part of x over the high part of y. */
  lemma {:induction false} Joined(x: nat, y: nat, low: nat, high: nat)
    requires y < 256 && ((low == 4 && high == 16) || (low == 16 && high == 4))
    ensures (x % low * high + y / (256 / high)) / high == x % low
    ensures (x % low * high + y / (256 / high)) % high == y / (256 / high)
  {
    if low == 4 {
      assert y / 16 < 16;
    } else {
      assert y / 64 < 4;
    }
  }

  lemma {:induction false} LookupSymbol(t: Alphabet, d: Decoder, v: Byte)
    requires Agree(t, d) && v < 64
    ensures d[t[v]] == v && t[v] != PAD
  {
    assert Paired(t, d, v);
  }

  lemma {:induction false} BlockBytes(d: Decoder, a: Byte, b: Byte, c: Byte, q: seq<Byte>)
    requires |q| == 4 && d[q[0]] == a / 4 && d[q[1]] == a % 4 * 16 + b / 16
    requires d[q[2]] == b % 16 * 4 + c / 64 && d[q[3]] == c % 64
    ensures Known(d, q) && Bytes(d, q) == [a, b, c]
  {
    TripleOfQuad(a, b, c);
  }

  lemma {:induction false} QuadBytes(t: Alphabet, d: Decoder, a: Byte, b: Byte, c: Byte)
    requires Agree(t, d)
    ensures var q := Quad(t, a, b, c);
            Pads(q) == 0 && Known(d, q) && Bytes(d, q) == [a, b, c]
  {
    var q := Quad(t, a, b, c);
    LookupSymbol(t, d, a / 4);
    LookupSymbol(t, d, a % 4 * 16 + b / 16);
    LookupSymbol(t, d, b % 16 * 4 + c / 64);
    LookupSymbol(t, d, c % 64);
    PadsOfBlock(q[0], q[1], q[2], q[3]);
    BlockBytes(d, a, b, c, q);
  }

  lemma {:induction false} LastBytes(t: Alphabet, d: Decoder, src: seq<Byte>)
    requires Agree(t, d) && 0 < |src| < 3
    ensures var q := Last(t, src);
            && Pads(q) == 3 - |src| && Known(d, q)
            && Bytes(d, q)[..|src|] == src
  {
    var a, b, q := src[0], if |src| == 1 then 0 else src[1], Last(t, src);
    LookupSymbol(t, d, a / 4);
    LookupSymbol(t, d, a % 4 * 16 + b / 16);
    LookupSymbol(t, d, b % 16 * 4);
    PadsOfBlock(q[0], q[1], q[2], q[3]);
    BlockBytes(d, a, b, 0, q);
  }

  lemma {:induction false} BlocksOfText(t: Alphabet, d: Decoder, src: seq<Byte>)
    requires Agree(t, d)
    ensures |Text(t, src)| % 4 == 0 && Known(d, Text(t, src)) && Blocks(d, Text(t, src)) == Some(src)
  {
    TextIsSymbols(t, d, src);
    TextLength(t, src);
    if |src| >= 3 {
      BlocksOfText(t, d, src[3..]);
      BlocksOfQuad(t, d, src[0], src[1], src[2], src[3..]);
      assert src == [src[0], src[1], src[2]] + src[3..];
    } else if src != [] {
      LastText(t, src);
      LastBytes(t, d, src);
      BlocksStep(d, Last(t, src), []);
      assert Last(t, src) + [] == Last(t, src);
    }
  }

  lemma {:induction false} BlocksOfQuad(t: Alphabet, d: Decoder, a: Byte, b: Byte, c: Byte, rest: seq<Byte>)
    requires Agree(t, d) && |Text(t, rest)| % 4 == 0 && Known(d, Text(t, rest)) && Blocks(d, Text(t, rest)) == Some(rest)
    ensures var text := Text(t, [a, b, c] + rest);
            |text| % 4 == 0 && Known(d, text) && Blocks(d, text) == Some([a, b, c] + rest)
  {
    QuadBytes(t, d, a, b, c);
    TextStep(t, a, b, c, rest);
    BlocksPrepend(d, Quad(t, a, b, c), Text(t, rest), [a, b, c], rest);
  }

  lemma {:induction false} BlocksPrepend(d: Decoder, q: seq<Byte>, s: seq<Byte>, u: seq<Byte>, rest: seq<Byte>)
    requires |q| == 4 && Known(d, q) && Pads(q) == 0 && Bytes(d, q) == u
    requires |s| % 4 == 0 && Known(d, s) && Blocks(d, s) == Some(rest)
    ensures |q + s| % 4 == 0 && Known(d, q + s) && Blocks(d, q + s) == Some(u + rest)
  {
    BlocksStep(d, q, s);
  }

  /** Decoding what was encoded gives the bytes back, exactly when there are any:
      the encoding of no bytes is not accepted. */
  lemma {:induction false} RoundTrip(t: Alphabet, d: Decoder, src: seq<Byte>)
    requires Agree(t, d)
    ensures Decoded(d, Lines(Text(t, src))) == if src == [] then None else Some(src)
  {
    BlocksOfText(t, d, src);
    SymbolsOfLines(d, Text(t, src));
  }

  // ------------------------------------------------------------------ any text

  /** The letters of a text, whatever stands between them. */
  function Letters(text: seq<Byte>): seq<Byte> {
    if text == [] then []
    else (if IsLetter(text[0]) then [text[0]] else []) + Letters(text[1..])
  }

  lemma {:induction false} SymbolsAreLetters(text: seq<Byte>)
    ensures Symbols(Inverse(), text) == Letters(text)
  {
    if text != [] {
      InverseIsLetters(text[0]);
      SymbolsAreLetters(text[1..]);
    }
  }

  /** The '=' among the letters of block k. */
  ghost function PadsAt(s: seq<Byte>, k: nat): nat
    requires 4 * k + 4 <= |s|
  {
    multiset(s[4 * k..4 * k + 4])['=' as int as Byte]
  }

  /** No '=' before block k. */
  ghost predicate PlainTo(s: seq<Byte>, k: nat) {
    4 * k <= |s| && forall i | 0 <= i < 4 * k :: s[i] as int != '=' as int
  }

  /** Block k is the first padded one. */
  ghost predicate FirstPadded(s: seq<Byte>, k: nat) {
    PlainTo(s, k) && 4 * k + 4 <= |s| && PadsAt(s, k) > 0
  }

  /** What is not accepted: no letters, an incomplete block, or more than two '=' in
      the first block that has any. */
  ghost predicate Refused(text: seq<Byte>) {
    var s := Letters(text);
    |s| == 0 || |s| % 4 != 0 || exists k: nat :: FirstPadded(s, k) && PadsAt(s, k) > 2
  }

  /** The 24 bits of block k. */
  function BlockNumber(d: Decoder, s: seq<Byte>, k: nat): int
    requires 4 * k + 4 <= |s|
  {
    ((d[s[4 * k]] as int * 64 + d[s[4 * k + 1]] as int) * 64 + d[s[4 * k + 2]] as int) * 64 + d[s[4 * k + 3]] as int
  }

  /** The 24 bits of three bytes. */
  function ByteNumber(u: seq<Byte>, i: nat): int
    requires i + 3 <= |u|
  {
    (u[i] as int * 256 + u[i + 1] as int) * 256 + u[i + 2] as int
  }

  lemma {:induction false} PadsCounted(q: seq<Byte>)
    requires |q| == 4
    ensures Pads(q) == multiset(q)[PAD]
  {
    assert q == [q[0], q[1], q[2], q[3]];
    PadsOfBlock(q[0], q[1], q[2], q[3]);
  }

  lemma {:induction false} TripleNumber(a: Byte, b: Byte, c: Byte, d: Byte)
    requires a < 64 && b < 64 && c < 64 && d < 64
    ensures ByteNumber(Triple(a, b, c, d), 0) == ((a as int * 64 + b as int) * 64 + c as int) * 64 + d as int
  {
  }

  lemma {:induction false} TripleCut(a: Byte, b: Byte, c: Byte, d: Byte)
    requires a < 64 && b < 64 && c < 64 && d < 64
    ensures var t, n := Triple(a, b, c, d), ((a as int * 64 + b as int) * 64 + c as int) * 64 + d as int;
            t[0] as int * 256 + t[1] as int == n / 256 && t[0] as int == n / 65536
  {
    TripleNumber(a, b, c, d);
  }

  /** Bytes 3j to 3j + 2 are the 24 bits of block j. */
  ghost predicate WholeAt(d: Decoder, s: seq<Byte>, out: seq<Byte>, j: nat) {
    4 * j + 4 <= |s| && 3 * j + 3 <= |out| && ByteNumber(out, 3 * j) == BlockNumber(d, s, j)
  }

  /** The bytes from place i on are the upper 16 or 8 bits of block k. */
  ghost predicate CutAt(d: Decoder, s: seq<Byte>, k: nat, out: seq<Byte>, i: nat)
    requires 4 * k + 4 <= |s|
  {
    match PadsAt(s, k)
    case 1 => |out| == i + 2 && out[i] as int * 256 + out[i + 1] as int == BlockNumber(d, s, k) / 256
    case 2 => |out| == i + 1 && out[i] as int == BlockNumber(d, s, k) / 65536
    case _ => false
  }

  /** The bytes are those of the k blocks in front of the first '=', and of the block
      that it stands in, if there is one. */
  ghost predicate Spelled(d: Decoder, s: seq<Byte>, k: nat, out: seq<Byte>) {
    && PlainTo(s, k) && (forall j: nat | j < k :: WholeAt(d, s, out, j))
    && if 4 * k == |s| then |out| == 3 * k else FirstPadded(s, k) && CutAt(d, s, k, out, 3 * k)
  }

  /** A text that starts with a padded block. */
  lemma {:induction false} FirstExactly(d: Decoder, s: seq<Byte>)
    requires |s| % 4 == 0 && Known(d, s) && FirstPadded(s, 0)
    ensures Blocks(d, s) == None <==> PadsAt(s, 0) > 2
    ensures Blocks(d, s).Some? ==> Spelled(d, s, 0, Blocks(d, s).value)
  {
    var q := s[..4];
    PadsCounted(q);
    TripleCut(d[q[0]], d[q[1]], d[q[2]], d[q[3]]);
  }

  lemma {:induction false} BlocksExactly(d: Decoder, s: seq<Byte>, k: nat)
    requires |s| % 4 == 0 && Known(d, s) && PlainTo(s, k) && (4 * k == |s| || FirstPadded(s, k))
    ensures BlocksAre(d, s, k, Blocks(d, s))
  {
    if k > 0 {
      PlainBlock(s);
      RestPlain(s, k);
      BlocksExactly(d, s[4..], k - 1);
      FirstNumber(d, s);
      MoreBlocks(d, s, k, Bytes(d, s[..4]), Blocks(d, s[4..]));
    } else if s != [] {
      FirstExactly(d, s);
    }
  }

  /** What r must be when the first '=' stands in block k, or nowhere. */
  ghost predicate BlocksAre(d: Decoder, s: seq<Byte>, k: nat, r: Option<seq<Byte>>)
    requires 4 * k == |s| || 4 * k + 4 <= |s|
  {
    match r
    case None => 4 * k < |s| && PadsAt(s, k) > 2
    case Some(out) => Spelled(d, s, k, out)
  }

  lemma {:induction false} MoreBlocks(d: Decoder, s: seq<Byte>, k: nat, u: seq<Byte>, r: Option<seq<Byte>>)
    requires k > 0 && PlainTo(s, k) && (4 * k == |s| || 4 * k + 4 <= |s|)
    requires |u| == 3 && ByteNumber(u, 0) == BlockNumber(d, s, 0) && BlocksAre(d, s[4..], k - 1, r)
    ensures BlocksAre(d, s, k, Prepend(u, r))
  {
    RestPlain(s, k);
    if r.Some? {
      SpelledStep(d, s, k, u, r.value);
    }
  }

  lemma {:induction false} FirstNumber(d: Decoder, s: seq<Byte>)
    requires |s| >= 4 && Known(d, s)
    ensures ByteNumber(Bytes(d, s[..4]), 0) == BlockNumber(d, s, 0)
  {
    var q := s[..4];
    TripleNumber(d[q[0]], d[q[1]], d[q[2]], d[q[3]]);
  }

  lemma {:induction false} PlainBlock(s: seq<Byte>)
    requires PlainTo(s, 1)
    ensures Pads(s[..4]) == 0
  {
    assert s[..4] == [s[0], s[1], s[2], s[3]];
    PadsOfBlock(s[0], s[1], s[2], s[3]);
  }

  lemma {:induction false} RestPlain(s: seq<Byte>, k: nat)
    requires PlainTo(s, k) && k > 0
    ensures PlainTo(s[4..], k - 1) && PlainTo(s, 1)
    ensures 4 * k + 4 <= |s| ==> PadsAt(s[4..], k - 1) == PadsAt(s, k)
  {
    if 4 * k + 4 <= |s| {
      CutTwice(s, 4 * k);
    }
  }

  lemma {:induction false} CutTwice(s: seq<Byte>, n: nat)
    requires 4 <= n && n + 4 <= |s|
    ensures s[4..][n - 4..n] == s[n..n + 4]
  {
    var a, b := s[4..][n - 4..n], s[n..n + 4];
    assert forall i | 0 <= i < 4 :: a[i] == s[4..][n - 4 + i] == b[i];
  }

  lemma {:induction false} SpelledStep(d: Decoder, s: seq<Byte>, k: nat, u: seq<Byte>, out: seq<Byte>)
    requires k > 0 && PlainTo(s, k) && |u| == 3 && ByteNumber(u, 0) == BlockNumber(d, s, 0)
    requires Spelled(d, s[4..], k - 1, out)
    ensures Spelled(d, s, k, u + out)
  {
    RestPlain(s, k);
    forall j: nat | j < k
      ensures WholeAt(d, s, u + out, j)
    {
      if j == 0 {
        assert WholeAt(d, s, u + out, 0);
      } else {
        assert WholeAt(d, s[4..], out, j - 1);
        ShiftedBlock(d, s, j, u, out);
      }
    }
    if 4 * k < |s| {
      ShiftedCut(d, s, k, u, out);
    }
  }

  lemma {:induction false} ShiftedBlock(d: Decoder, s: seq<Byte>, j: nat, u: seq<Byte>, out: seq<Byte>)
    requires j > 0 && |s| >= 4 && |u| == 3 && WholeAt(d, s[4..], out, j - 1)
    ensures WholeAt(d, s, u + out, j)
  {
  }

  lemma {:induction false} ShiftedCut(d: Decoder, s: seq<Byte>, k: nat, u: seq<Byte>, out: seq<Byte>)
    requires k > 0 && 4 * k + 4 <= |s| && |u| == 3 && PadsAt(s[4..], k - 1) == PadsAt(s, k)
    requires CutAt(d, s[4..], k - 1, out, 3 * (k - 1))
    ensures CutAt(d, s, k, u + out, 3 * k)
  {
  }

  /** The blocks in front of the first '='. */
  lemma {:induction false} PlainBlocks(s: seq<Byte>) returns (k: nat)
    requires |s| % 4 == 0
    ensures PlainTo(s, k) && (4 * k == |s| || FirstPadded(s, k))
  {
    k := 0;
    while 4 * k < |s| && PadsAt(s, k) == 0
      invariant PlainTo(s, k)
    {
      assert forall i | 4 * k <= i < 4 * k + 4 :: s[i] in multiset(s[4 * k..4 * k + 4]);
      k := k + 1;
    }
  }

  /** For every text: NULL exactly when it is refused, and otherwise the bytes of its
      blocks up to the first padding. */
  lemma {:induction false} DecodedExactly(text: seq<Byte>)
    ensures Decoded(Inverse(), text) == None <==> Refused(text)
    ensures Decoded(Inverse(), text).Some? ==>
              exists k: nat :: Spelled(Inverse(), Letters(text), k, Decoded(Inverse(), text).value)
  {
    var d, s := Inverse(), Letters(text);
    SymbolsAreLetters(text);
    SymbolsKnown(d, text);
    if s != [] && |s| % 4 == 0 {
      var k := PlainBlocks(s);
      BlocksExactly(d, s, k);
      if k': nat :| FirstPadded(s, k') && PadsAt(s, k') > 2 {
        BlocksExactly(d, s, k');
      }
    }
  }

  /** The letters of an encoding are read back, whatever stands between and behind
      them. */
  lemma {:induction false} ReadBack(text: seq<Byte>, src: seq<Byte>)
    requires Letters(text) == Text(Table(), src) && src != []
    ensures Decoded(Inverse(), text) == Some(src)
  {
    TablesAgree();
    BlocksOfText(Table(), Inverse(), src);
    SymbolsAreLetters(text);
    TextLength(Table(), src);
  }

  // --------------------------------------------------------------- the decoder

  /** How many characters of the text the decoder looks at. */
  method CountSymbols(d: Decoder, src: seq<Byte>) returns (count: nat)
    ensures count == |Symbols(d, src)|
  {
    count := 0;
    for i := 0 to |src|
      invariant count + |Symbols(d, src[i..])| == |Symbols(d, src)|
    {
      assert src[i..][0] == src[i] && src[i..][1..] == src[i + 1..];
      if d[src[i]] != NONE {
        count := count + 1;
      }
    }
  }

  /** What is left to decode: the characters of an unfinished block, and the rest. */
  ghost function Left(d: Decoder, chars: seq<Byte>, rest: seq<Byte>): seq<Byte> {
    chars + Symbols(d, rest)
  }

  /** Between two characters: the bytes so far and the text that is left make up the
      result. */
  ghost predicate Decoding(d: Decoder, all: seq<Byte>, out: seq<Byte>, chars: seq<Byte>, rest: seq<Byte>) {
    var s := Left(d, chars, rest);
    && Known(d, all) && Known(d, chars) && Known(d, s) && |all| % 4 == |s| % 4 == 0
    && |out| / 3 * 4 + |s| == |all| && |out| % 3 == 0
    && Blocks(d, all) == Prepend(out, Blocks(d, s))
  }

  lemma {:induction false} DecodingStart(d: Decoder, src: seq<Byte>)
    requires |Symbols(d, src)| % 4 == 0
    ensures Decoding(d, Symbols(d, src), [], [], src)
  {
    SymbolsKnown(d, src);
    var s := Symbols(d, src);
    assert [] + s == s;
    match Blocks(d, s)
    case None =>
    case Some(u) => assert [] + u == u;
  }

  /** A character that is not a symbol is passed over, another one joins the block. */
  lemma {:induction false} DecodingNext(d: Decoder, all: seq<Byte>, out: seq<Byte>, chars: seq<Byte>, rest: seq<Byte>)
    requires Decoding(d, all, out, chars, rest) && rest != []
    ensures Decoding(d, all, out, if d[rest[0]] == NONE then chars else chars + [rest[0]], rest[1..])
  {
    if d[rest[0]] != NONE {
      assert chars + [rest[0]] + Symbols(d, rest[1..]) == Left(d, chars, rest);
    }
  }

  /** A full block without padding adds its bytes; padding ends the text. */
  lemma {:induction false} DecodingBlock(d: Decoder, all: seq<Byte>, out: seq<Byte>, q: seq<Byte>, rest: seq<Byte>)
    requires Decoding(d, all, out, q, rest) && |q| == 4
    ensures Pads(q) == 0 ==> Decoding(d, all, out + Bytes(d, q), [], rest)
    ensures 0 < Pads(q) <= 2 ==> Blocks(d, all) == Some(out + Bytes(d, q)[..3 - Pads(q)])
    ensures Pads(q) > 2 ==> Blocks(d, all) == None
    ensures |out| + 3 <= |all| / 4 * 3
  {
    SymbolsKnown(d, rest);
    if Pads(q) == 0 {
      DecodingPlain(d, all, out, q, rest);
    } else {
      DecodingPadded(d, all, out, q, rest);
    }
  }

  lemma {:induction false} DecodingPlain(d: Decoder, all: seq<Byte>, out: seq<Byte>, q: seq<Byte>, rest: seq<Byte>)
    requires Decoding(d, all, out, q, rest) && |q| == 4 && Pads(q) == 0 && Known(d, Symbols(d, rest))
    ensures Decoding(d, all, out + Bytes(d, q), [], rest)
  {
    BlocksPlain(d, q, Symbols(d, rest));
    DecodingMore(d, all, out, q, rest, Bytes(d, q));
  }

  lemma {:induction false} BlocksPlain(d: Decoder, q: seq<Byte>, s: seq<Byte>)
    requires |q| == 4 && |s| % 4 == 0 && Known(d, q) && Known(d, s) && Pads(q) == 0
    ensures Known(d, q + s) && Blocks(d, q + s) == Prepend(Bytes(d, q), Blocks(d, s))
  {
    BlocksStep(d, q, s);
  }

  lemma {:induction false} DecodingPadded(d: Decoder, all: seq<Byte>, out: seq<Byte>, q: seq<Byte>, rest: seq<Byte>)
    requires Decoding(d, all, out, q, rest) && |q| == 4 && Pads(q) > 0 && Known(d, Symbols(d, rest))
    ensures Blocks(d, all) == if Pads(q) <= 2 then Some(out + Bytes(d, q)[..3 - Pads(q)]) else None
  {
    BlocksStep(d, q, Symbols(d, rest));
  }

  lemma {:induction false} DecodingMore(d: Decoder, all: seq<Byte>, out: seq<Byte>, q: seq<Byte>, rest: seq<Byte>,
                                        u: seq<Byte>)
    requires Decoding(d, all, out, q, rest) && |q| == 4 && |u| == 3 && Known(d, Symbols(d, rest))
    requires Blocks(d, q + Symbols(d, rest)) == Prepend(u, Blocks(d, Symbols(d, rest)))
    ensures Decoding(d, all, out + u, [], rest)
  {
    var s := Symbols(d, rest);
    assert [] + s == s;
    PrependTwice(out, u, Blocks(d, s));
  }

  lemma {:induction false} BlocksStep(d: Decoder, q: seq<Byte>, s: seq<Byte>)
    requires |q| == 4 && |s| % 4 == 0 && Known(d, q) && Known(d, s)
    ensures Known(d, q + s)
    ensures Blocks(d, q + s) ==
            if Pads(q) == 0 then Prepend(Bytes(d, q), Blocks(d, s))
            else if Pads(q) <= 2 then Some(Bytes(d, q)[..3 - Pads(q)]) else None
  {
    assert (q + s)[..4] == q && (q + s)[4..] == s;
  }

  lemma {:induction false} PrependTwice(a: seq<Byte>, b: seq<Byte>, o: Option<seq<Byte>>)
    ensures Prepend(a, Prepend(b, o)) == Prepend(a + b, o)
  {
    if o.Some? {
      assert a + (b + o.value) == a + b + o.value;
    }
  }

  lemma {:induction false} DecodingEnd(d: Decoder, all: seq<Byte>, out: seq<Byte>, chars: seq<Byte>)
    requires Decoding(d, all, out, chars, []) && |chars| < 4
    ensures Blocks(d, all) == Some(out)
  {
    assert Left(d, chars, []) == chars == [];
    assert out + [] == out;
  }

  /** The three bytes of a finished block. */
  method PutBytes(d: Decoder, out: array<Byte>, pos: nat, block: array<Byte>, ghost q: seq<Byte>) returns (next: nat)
    requires pos + 3 <= out.Length && block.Length == 4 && block != out
    requires |q| == 4 && Known(d, q) && forall j | 0 <= j < 4 :: block[j] == d[q[j]]
    modifies out
    ensures next == pos + 3 && out[..next] == old(out[..pos]) + Bytes(d, q)
  {
    out[pos] := block[0] * 4 + block[1] / 16;
    out[pos + 1] := block[1] % 16 * 16 + block[2] / 4;
    out[pos + 2] := block[2] % 4 * 64 + block[3];
    next := pos + 3;
  }

  lemma {:induction false} CutConcat(a: seq<Byte>, b: seq<Byte>, n: nat)
    requires n <= |b|
    ensures (a + b)[..|a| + n] == a + b[..n]
  {
  }

  /** The entries and the padding count of the characters of an unfinished block. */
  ghost predicate Holds(d: Decoder, block: seq<Byte>, chars: seq<Byte>, pad: nat) {
    && |chars| <= 4 == |block| && pad == Pads(chars)
    && forall j | 0 <= j < |chars| :: block[j] == d[chars[j]]
  }

  lemma {:induction false} HoldsNext(d: Decoder, block: seq<Byte>, chars: seq<Byte>, pad: nat, c: Byte)
    requires Holds(d, block, chars, pad) && |chars| < 4
    ensures Holds(d, block[|chars| := d[c]], chars + [c], if c == PAD then pad + 1 else pad)
  {
    assert (chars + [c])[..|chars|] == chars;
  }

  datatype Progress = More | Done | Invalid

  /** A finished block is written, and cut short when it is padded. */
  method FinishBlock(d: Decoder, out: array<Byte>, pos: nat, block: array<Byte>, pad: nat,
                     ghost all: seq<Byte>, ghost q: seq<Byte>, ghost rest: seq<Byte>)
    returns (next: nat, progress: Progress)
    requires block != out && block.Length == 4 && Holds(d, block[..], q, pad) && |q| == 4
    requires pos <= out.Length == |all| / 4 * 3 && Decoding(d, all, out[..pos], q, rest)
    modifies out
    ensures next <= out.Length
    ensures match progress
            case More => pad == 0 && Decoding(d, all, out[..next], [], rest)
            case Done => Blocks(d, all) == Some(out[..next])
            case Invalid => Blocks(d, all) == None
  {
    DecodingBlock(d, all, out[..pos], q, rest);
    ghost var before := out[..pos];
    next := PutBytes(d, out, pos, block, q);
    ghost var full := out[..next];
    if pad == 0 {
      return next, More;
    }
    if pad > 2 {
      return next, Invalid;
    }
    next := next - pad;
    CutConcat(before, Bytes(d, q), 3 - pad);
    assert out[..next] == full[..next];
    progress := Done;
  }

  /** The second loop of the decoder.  It ends early at the first padded block. */
  method DecodeBlocks(d: Decoder, src: seq<Byte>, out: array<Byte>) returns (ok: bool, pos: nat)
    requires Known(d, Symbols(d, src)) && |Symbols(d, src)| % 4 == 0 && out.Length == |Symbols(d, src)| / 4 * 3
    modifies out
    ensures pos <= out.Length && Blocks(d, Symbols(d, src)) == if ok then Some(out[..pos]) else None
  {
    var pad, count, block := 0, 0, new Byte[4];
    ghost var all, chars := Symbols(d, src), [];
    pos := 0;
    DecodingStart(d, src);
    assert src[0..] == src;
    for i := 0 to |src|
      invariant pos <= out.Length && fresh(block) && block.Length == 4
      invariant Decoding(d, all, out[..pos], chars, src[i..])
      invariant count == |chars| < 4 && Holds(d, block[..], chars, pad)
    {
      DecodingNext(d, all, out[..pos], chars, src[i..]);
      assert src[i..][0] == src[i] && src[i..][1..] == src[i + 1..];
      var tmp := d[src[i]];
      if tmp != NONE {
        HoldsNext(d, block[..], chars, pad, src[i]);
        if src[i] == PAD {
          pad := pad + 1;
        }
        block[count], count, chars := tmp, count + 1, chars + [src[i]];
        if count == 4 {
          var progress;
          pos, progress := FinishBlock(d, out, pos, block, pad, all, chars, src[i + 1..]);
          if progress != More {
            return progress == Done, pos;
          }
          count, chars := 0, [];
        }
      }
    }
    assert src[|src|..] == [];
    DecodingEnd(d, all, out[..pos], chars);
    ok := true;
  }

  /** The codes of a text's characters. */
  function Codes(s: string): (codes: seq<Byte>)
    requires forall i | 0 <= i < |s| :: s[i] as int < 256
    ensures |codes| == |s|
  {
    seq(|s|, i requires 0 <= i < |s| => s[i] as int as Byte)
  }

  lemma {:induction false} VectorBlocks()
    ensures Quad(Table(), 102, 111, 111) == [90, 109, 57, 118]
    ensures Quad(Table(), 98, 97, 114) == [89, 109, 70, 121]
    ensures Last(Table(), [98]) == [89, 103, 61, 61] && Last(Table(), [98, 97]) == [89, 109, 69, 61]
  {
  }

  /** Test vectors of section 10 of RFC 4648. */
  lemma {:induction false} RfcVectors()
    ensures Text(Table(), Codes("foobar")) == Codes("Zm9vYmFy")
    ensures Text(Table(), Codes("foob")) == Codes("Zm9vYg==")
    ensures Text(Table(), Codes("fooba")) == Codes("Zm9vYmE=")
  {
    var t, foo := Table(), [102, 111, 111];
    VectorBlocks();
    TextStep(t, 102, 111, 111, [98, 97, 114]);
    TextStep(t, 98, 97, 114, []);
    assert [98, 97, 114] + [] == [98, 97, 114];
    TextStep(t, 102, 111, 111, [98]);
    LastText(t, [98]);
    TextStep(t, 102, 111, 111, [98, 97]);
    LastText(t, [98, 97]);
    assert Codes("foobar") == foo + [98, 97, 114] && Codes("foob") == foo + [98] && Codes("fooba") == foo + [98, 97];
    assert Codes("Zm9vYmFy") == [90, 109, 57, 118] + ([89, 109, 70, 121] + []);
    assert Codes("Zm9vYg==") == [90, 109, 57, 118] + [89, 103, 61, 61];
    assert Codes("Zm9vYmE=") == [90, 109, 57, 118] + [89, 109, 69, 61];
  }

  /** "foobar", through the encoder. */
  method EncodeFoobar() returns (out: array?<Byte>, outLen: nat)
    ensures out != null && outLen < out.Length && out[..outLen] == Codes("Zm9vYmFy\n")
  {
    var src := Codes("foobar");
    out, outLen := Encode(src);
    RfcVectors();
    assert Codes("Zm9vYmFy\n") == Codes("Zm9vYmFy") + [LF];
  }

  /** util_base64_decode: what it refuses, what the bytes are otherwise, and which
      texts give the bytes that they encode. */
  method Decode(src: seq<Byte>) returns (out: array?<Byte>, outLen: nat)
    ensures out == null <==> Decoded(Inverse(), src) == None
    ensures out != null ==> outLen <= out.Length && Decoded(Inverse(), src) == Some(out[..outLen])
    ensures out == null <==> Refused(src)
    ensures out != null ==> exists k: nat :: Spelled(Inverse(), Letters(src), k, out[..outLen])
    ensures forall bytes | bytes != [] && Letters(src) == Text(Table(), bytes) ::
              out != null && out[..outLen] == bytes
  {
    var d := DecodingTable(Table());
    out, outLen := DecodeWith(d, src);
    DecodedExactly(src);
    forall bytes | bytes != [] && Letters(src) == Text(Table(), bytes)
      ensures Decoded(Inverse(), src) == Some(bytes)
    {
      ReadBack(src, bytes);
    }
  }

  method DecodeWith(d: Decoder, src: seq<Byte>) returns (out: array?<Byte>, outLen: nat)
    ensures out == null <==> Decoded(d, src) == None
    ensures out != null ==> outLen <= out.Length && Decoded(d, src) == Some(out[..outLen])
  {
    var count := CountSymbols(d, src);
    SymbolsKnown(d, src);
    if count == 0 || count % 4 != 0 {
      return null, 0;
    }
    var buffer := new Byte[count / 4 * 3];
    var ok;
    ok, outLen := DecodeBlocks(d, src, buffer);
    out := if ok then buffer else null;
  }

  /** The encoder and the decoder together: any bytes but none come back. */
  method EncodeThenDecode(src: seq<Byte>) returns (back: Option<seq<Byte>>)
    requires |src| < SIZE / 4
    ensures back == if src == [] then None else Some(src)
  {
    var text, n := Encode(src);
    var out, m := Decode(text[..n]);
    TablesAgree();
    RoundTrip(Table(), Inverse(), src);
    back := if out == null then None else Some(out[..m]);
  }
}
