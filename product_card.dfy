/** The rules of one catalog product card: the display form of a product code,
    the purchase guard and the quantity field. */
module ProductCard {
  import opened Wrappers
  import opened JsString

  /** A catalog product as the card receives it. Price and stock arrive as the
      decimal strings of unsigned contract values; `*` and `<=` turn them back
      into those values, which is what the fields hold. */
  datatype Product = Product(code: string, description: string, price: nat, inStock: bool, stock: nat)

  /** At most two characters of hex text: what one turn of the loop reads. */
  type Piece = s: string | |s| <= 2

  /** The text one piece contributes: nothing for the byte 0, otherwise
      `String.fromCharCode` of what `parseInt(piece, 16)` gives (a `NaN` piece
      gives the character 0). */
  function PieceText(piece: Piece): (t: string)
    ensures |t| <= 1
  {
    ParseIntShortHexRange(piece);
    var b := ParseInt(piece, 16);
    if b == Some(0) then [] else [FromCharCode(b)]
  }

  /** The text that `piece` decodes from `hex`, read two characters at a time
      (the last piece of an odd-length text has one character). */
  function Decode(hex: string, piece: Piece -> string): string
    decreases |hex|
  {
    if hex == [] then []
    else
      var n := if |hex| < 2 then |hex| else 2;
      piece(hex[..n]) + Decode(hex[n..], piece)
  }

  /** The specification of `formatProductCode`. */
  function FormattedCode(code: string): string {
    if StartsWith(code, "0x") then
      var str := Decode(code[2..], PieceText);
      if str != [] then str else Substring(code, 0, 10) + "..."
    else code
  }

  /** `formatProductCode`: walks the hex text two characters at a time. */
  method FormatProductCode(code: string) returns (r: string)
    ensures r == FormattedCode(code)
  {
    if !StartsWith(code, "0x") {
      return code;
    }
    var hex := code[2..];
    var str := "";
    var i: nat := 0;
    while i < |hex|
      invariant str + Decode(hex[Clamp(i, |hex|)..], PieceText) == Decode(hex, PieceText)
      decreases |hex| - i
    {
      var piece := Substring(hex, i, i + 2);
      ghost var before := str;
      ParseIntShortHexRange(piece);
      var b := ParseInt(piece, 16);
      if b != Some(0) {
        str := str + [FromCharCode(b)];
      }
      PieceStep(hex, i, PieceText, before, str);
      i := i + 2;
    }
    r := if str != [] then str else Substring(code, 0, 10) + "...";
  }

  /** The piece the loop reads at `i` is the front of `hex[i..]`, and the loop
      goes on with the rest. */
  lemma PieceAt(hex: string, i: nat)
    requires i < |hex|
    ensures var n := if |hex| - i < 2 then |hex| - i else 2;
      && Substring(hex, i, i + 2) == hex[i..][..n]
      && hex[i..][n..] == hex[Clamp(i + 2, |hex|)..]
  {
  }

  /** `Decode` takes one piece from the front of a nonempty string. */
  lemma DecodeFront(t: string, piece: Piece -> string)
    requires t != []
    ensures var n := if |t| < 2 then |t| else 2;
      Decode(t, piece) == piece(t[..n]) + Decode(t[n..], piece)
  {
  }

  /** One turn of the loop appends what `Decode` takes from the front of `hex[i..]`. */
  lemma PieceStep(hex: string, i: nat, piece: Piece -> string, before: string, after: string)
    requires i < |hex|
    requires after == before + piece(Substring(hex, i, i + 2))
    ensures before + Decode(hex[i..], piece) == after + Decode(hex[Clamp(i + 2, |hex|)..], piece)
  {
    PieceAt(hex, i);
    var t := hex[i..];
    var n := if |t| < 2 then |t| else 2;
    DecodeFront(t, piece);
    var p, rest := piece(t[..n]), Decode(t[n..], piece);
    assert before + (p + rest) == (before + p) + rest;
  }

  /** A code that does not start with `0x` is shown as it is. */
  lemma PlainCodeUnchanged(code: string)
    requires !StartsWith(code, "0x")
    ensures FormattedCode(code) == code
  {
  }

  /** The decoded text has at most one character per two hex characters. */
  lemma {:induction false} DecodeLength(hex: string)
    ensures |Decode(hex, PieceText)| <= (|hex| + 1) / 2
    decreases |hex|
  {
    if hex != [] {
      var n := if |hex| < 2 then |hex| else 2;
      DecodeLength(hex[n..]);
    }
  }

  /** When no nonzero byte remains, the card shows the first ten characters of the code and `...`. */
  lemma EmptyDecodeFallsBack(code: string)
    requires StartsWith(code, "0x") && Decode(code[2..], PieceText) == []
    ensures FormattedCode(code) == code[..if |code| < 10 then |code| else 10] + "..."
  {
  }

  /** The lowercase hex digit for `d`. */
  function HexChar(d: nat): (c: char)
    requires d < 16
    ensures IsHexDigit(c) && DigitValue(c) == d
  {
    if d < 10 then DigitChar(d) else ('a' as int + d - 10) as char
  }

  type Byte = b: nat | b < 256

  /** Two hex digits per byte, as a `bytes32` value is written after `0x`. */
  function Hex(bytes: seq<Byte>): (s: string)
    ensures |s| == 2 * |bytes|
  {
    if bytes == [] then []
    else [HexChar(bytes[0] / 16), HexChar(bytes[0] % 16)] + Hex(bytes[1..])
  }

  /** The text the nonzero bytes spell, one character per byte, in order. */
  function NonZeroText(bytes: seq<Byte>): (s: string)
    ensures |s| <= |bytes|
  {
    if bytes == [] then []
    else (if bytes[0] == 0 then [] else [bytes[0] as char]) + NonZeroText(bytes[1..])
  }

  /** An even number of hex digits, either case: what `ethers` writes for a `bytes32` value after `0x`. */
  predicate WellFormedHex(s: string) {
    |s| % 2 == 0 && forall k :: 0 <= k < |s| ==> IsHexDigit(s[k])
  }

  /** The bytes a well-formed hex string spells, two digits per byte, high digit first. */
  function HexBytes(s: string): (bytes: seq<Byte>)
    requires WellFormedHex(s)
    ensures |bytes| == |s| / 2
  {
    seq(|s| / 2, k requires 0 <= k < |s| / 2 =>
      assert IsHexDigit(s[2 * k]) && IsHexDigit(s[2 * k + 1]);
      DigitValue(s[2 * k]) * 16 + DigitValue(s[2 * k + 1]))
  }

  /** The first byte of a well-formed hex string, and the bytes of the rest. */
  lemma HexBytesCons(s: string)
    requires WellFormedHex(s) && s != []
    ensures WellFormedHex(s[2..])
    ensures HexBytes(s) == [DigitValue(s[0]) * 16 + DigitValue(s[1])] + HexBytes(s[2..])
  {
    assert forall k :: 0 <= k < |s| - 2 ==> s[2..][k] == s[k + 2];
    var rest := HexBytes(s[2..]);
    assert forall k :: 0 <= k < |rest| ==> rest[k] == HexBytes(s)[k + 1];
  }

  /** Two hex digits give back the character of the byte they spell, or nothing for 0. */
  lemma PieceTextPair(c1: char, c2: char)
    requires IsHexDigit(c1) && IsHexDigit(c2)
    ensures var b := DigitValue(c1) * 16 + DigitValue(c2);
      PieceText([c1, c2]) == if b == 0 then [] else [b as char]
  {
    ParseIntHexPair(c1, c2);
  }

  /** Each nonzero byte of a well-formed hex string contributes exactly its own
      character, in order, and zero bytes are skipped. */
  lemma {:induction false} DecodeHex(s: string)
    requires WellFormedHex(s)
    ensures Decode(s, PieceText) == NonZeroText(HexBytes(s))
  {
    if s != [] {
      HexBytesCons(s);
      var b: Byte := DigitValue(s[0]) * 16 + DigitValue(s[1]);
      var rest := HexBytes(s[2..]);
      assert s[..2] == [s[0], s[1]];
      PieceTextPair(s[0], s[1]);
      DecodeHex(s[2..]);
      assert ([b] + rest)[0] == b && ([b] + rest)[1..] == rest;
    }
  }

  /** Two hex digits in front of well-formed hex keep it well formed. */
  lemma WellFormedHexCons(c1: char, c2: char, rest: string)
    requires IsHexDigit(c1) && IsHexDigit(c2) && WellFormedHex(rest)
    ensures WellFormedHex([c1, c2] + rest)
  {
    var s := [c1, c2] + rest;
    assert forall k :: 2 <= k < |s| ==> s[k] == rest[k - 2];
  }

  /** The lowercase hex of a byte sequence is well formed and spells those bytes. */
  lemma {:induction false} HexRoundTrip(bytes: seq<Byte>)
    ensures WellFormedHex(Hex(bytes)) && HexBytes(Hex(bytes)) == bytes
  {
    if bytes != [] {
      var b := bytes[0];
      var c1, c2, rest := HexChar(b / 16), HexChar(b % 16), Hex(bytes[1..]);
      HexRoundTrip(bytes[1..]);
      var s := Hex(bytes);
      assert s == [c1, c2] + rest;
      WellFormedHexCons(c1, c2, rest);
      assert s[0] == c1 && s[1] == c2 && s[2..] == rest;
      HexBytesCons(s);
      assert DigitValue(c1) * 16 + DigitValue(c2) == b;
      assert bytes == [b] + bytes[1..];
    }
  }

  /** A code `0x` followed by well-formed hex shows the text of its nonzero
      bytes, or the fallback when they are all zero. */
  lemma FormatHexCode(s: string)
    requires WellFormedHex(s)
    ensures var code := "0x" + s;
      FormattedCode(code) ==
        if NonZeroText(HexBytes(s)) != [] then NonZeroText(HexBytes(s)) else Substring(code, 0, 10) + "..."
  {
    var code := "0x" + s;
    assert StartsWith(code, "0x");
    assert code[2..] == s;
    DecodeHex(s);
  }

  predicate IsAsciiName(name: string) {
    forall k :: 0 <= k < |name| ==> 0 < name[k] as int < 128
  }

  /** The byte codes of an ASCII name, followed by `pad` zero bytes: a name as
      `bytes32` stores it. */
  function Bytes32Of(name: string, pad: nat): (bytes: seq<Byte>)
    requires IsAsciiName(name)
    ensures |bytes| == |name| + pad
  {
    seq(|name|, k requires 0 <= k < |name| => name[k] as int as Byte) + seq(pad, _ => 0 as Byte)
  }

  lemma {:induction false} NonZeroTextAppend(a: seq<Byte>, b: seq<Byte>)
    ensures NonZeroText(a + b) == NonZeroText(a) + NonZeroText(b)
  {
    if a != [] {
      assert (a + b)[1..] == a[1..] + b;
      assert (a + b)[0] == a[0];
      NonZeroTextAppend(a[1..], b);
      var head: string := if a[0] == 0 then [] else [a[0] as char];
      assert NonZeroText(a + b) == head + NonZeroText(a[1..] + b);
    } else {
      assert a + b == b;
    }
  }

  lemma {:induction false} NonZeroTextZeros(n: nat)
    ensures NonZeroText(seq(n, _ => 0 as Byte)) == []
  {
    if n > 0 {
      assert seq(n, _ => 0 as Byte)[1..] == seq(n - 1, _ => 0 as Byte);
      NonZeroTextZeros(n - 1);
    }
  }

  lemma {:induction false} NonZeroTextName(name: string)
    requires IsAsciiName(name)
    ensures NonZeroText(seq(|name|, k requires 0 <= k < |name| => name[k] as int as Byte)) == name
  {
    if name != [] {
      var codes := seq(|name|, k requires 0 <= k < |name| => name[k] as int as Byte);
      assert codes[1..] == seq(|name[1..]|, k requires 0 <= k < |name[1..]| => name[1..][k] as int as Byte);
      NonZeroTextName(name[1..]);
      assert name == [name[0]] + name[1..];
    }
  }

  /** A product whose code is a nonempty ASCII name stored as `bytes32` shows that name. */
  lemma Bytes32NameShown(name: string)
    requires IsAsciiName(name) && 0 < |name| <= 32
    ensures FormattedCode("0x" + Hex(Bytes32Of(name, 32 - |name|))) == name
  {
    var pad := 32 - |name|;
    NonZeroTextAppend(seq(|name|, k requires 0 <= k < |name| => name[k] as int as Byte), seq(pad, _ => 0 as Byte));
    NonZeroTextZeros(pad);
    NonZeroTextName(name);
    HexRoundTrip(Bytes32Of(name, pad));
    FormatHexCode(Hex(Bytes32Of(name, pad)));
  }

  /** `canAfford`: the points, read with `parseInt`, cover the total cost. Points that
      do not parse never afford anything. */
  function CanAfford(userPoints: string, price: nat, quantity: int): (r: bool)
    // `NaN >= total` is false: points that do not parse never afford anything
    ensures ParseInt(userPoints, 0).None? ==> !r
    ensures r ==> price * quantity <= ParseInt(userPoints, 0).value
    // a quantity of zero or less costs nothing, so any balance of at least 0 covers it
    ensures ParseInt(userPoints, 0).Some? && ParseInt(userPoints, 0).value >= 0 && quantity <= 0 ==> r
  {
    var p := ParseInt(userPoints, 0);
    assert quantity <= 0 ==> price * quantity <= 0 by {
      if quantity <= 0 { MulMonotone(price, quantity, 0); }
    }
    p.Some? && p.value >= price * quantity
  }

  /** Points shown as a decimal number afford exactly the totals up to that number. */
  lemma CanAffordDecimal(points: nat, price: nat, quantity: int)
    ensures CanAfford(Decimal(points), price, quantity) <==> points >= price * quantity
  {
    ParseIntDecimal(points);
  }

  lemma MulMonotone(price: nat, q1: int, q2: int)
    requires q1 <= q2
    ensures price * q1 <= price * q2
  {
    assert price * q2 - price * q1 == price * (q2 - q1);
  }

  /** More points afford at least as much; a larger quantity costs at least as much. */
  lemma CanAffordMonotone(p1: nat, p2: nat, price: nat, q1: int, q2: int)
    requires p1 <= p2 && q2 <= q1
    ensures CanAfford(Decimal(p1), price, q1) ==> CanAfford(Decimal(p2), price, q2)
  {
    CanAffordDecimal(p1, price, q1);
    CanAffordDecimal(p2, price, q2);
    MulMonotone(price, q2, q1);
  }

  /** The buy button is enabled exactly for an in-stock product the points cover. */
  function BuyEnabled(product: Product, userPoints: string, quantity: int): (r: bool)
    ensures !product.inStock ==> !r
    ensures ParseInt(userPoints, 0).None? ==> !r
    ensures r ==> product.price * quantity <= ParseInt(userPoints, 0).value
  {
    product.inStock && CanAfford(userPoints, product.price, quantity)
  }

  /** With the balance shown as a decimal number, the button is enabled exactly
      for an in-stock product whose total the balance covers. */
  lemma BuyEnabledDecimal(product: Product, points: nat, quantity: int)
    ensures BuyEnabled(product, Decimal(points), quantity) <==>
      product.inStock && product.price * quantity <= points
  {
    CanAffordDecimal(points, product.price, quantity);
  }

  /** The button's label. */
  datatype BuyLabel = OutOfStock | InsufficientPoints | BuyNow

  function Label(product: Product, userPoints: string, quantity: int): (l: BuyLabel)
    ensures l == BuyNow <==> BuyEnabled(product, userPoints, quantity)
    ensures l == OutOfStock <==> !product.inStock
  {
    if !product.inStock then OutOfStock
    else if !CanAfford(userPoints, product.price, quantity) then InsufficientPoints
    else BuyNow
  }

  /** The quantity a card keeps: starts at 1 and follows the input field only
      when it reads as a number between 1 and the stock. */
  class Card {
    var quantity: int

    ghost predicate Valid()
      reads this
    {
      quantity >= 1
    }

    constructor()
      ensures quantity == 1 && Valid()
    {
      quantity := 1;
    }

    /** `handleQuantityChange`. */
    method QuantityChange(inputValue: string, stock: nat)
      requires Valid()
      modifies this
      ensures Valid()
      ensures var v := ParseInt(inputValue, 0);
        quantity == if v.Some? && 0 < v.value <= stock then v.value else old(quantity)
    {
      var v := ParseInt(inputValue, 0);
      if v.Some? && v.value > 0 && v.value <= stock {
        quantity := v.value;
      }
    }
  }
}
