/**
 * The opstring literal encoder `Print` and a tokenizer for what it writes.
 * A literal is `make b0 b1 ... endmake ` with each byte in decimal and a
 * single space after every token; splitting on single spaces and parsing
 * the byte tokens gives the array back.
 */
module Opstring {
  import opened Wrappers
  import opened Bytes

  // ---------------------------------------------------------------------
  // Decimal rendering of a byte (`byte.ToString()`) and its parser

  function DigitChar(d: nat): (c: char)
    requires d < 10
  {
    "0123456789"[d]
  }

  predicate IsDigit(c: char)
  {
    '0' <= c <= '9'
  }

  function DigitValue(c: char): (d: nat)
    requires IsDigit(c)
  {
    (c as int) - ('0' as int)
  }

  /** Decimal digits of n, most significant first, without leading zeros. */
  function Decimal(n: nat): (s: string)
    ensures s != []
    ensures forall i :: 0 <= i < |s| ==> IsDigit(s[i])
    ensures s[0] == '0' ==> n == 0 && s == "0"
  {
    if n < 10 then [DigitChar(n)] else Decimal(n / 10) + [DigitChar(n % 10)]
  }

  /** A non-empty run of decimal digits read as a number; anything else is None. */
  function ParseDecimal(s: string): Option<nat>
  {
    if s == [] || !IsDigit(s[|s| - 1]) then None
    else if |s| == 1 then Some(DigitValue(s[0]))
    else match ParseDecimal(s[..|s| - 1])
      case None => None
      case Some(v) => Some(10 * v + DigitValue(s[|s| - 1]))
  }

  /** Reading the decimal rendering of n gives n back. */
  lemma {:induction false} DecimalRoundTrip(n: nat)
    ensures ParseDecimal(Decimal(n)) == Some(n)
  {
    if n >= 10 {
      var s := Decimal(n);
      assert s[..|s| - 1] == Decimal(n / 10);
      DecimalRoundTrip(n / 10);
    }
  }

  // ---------------------------------------------------------------------
  // The literal `Print` writes

  /** Each byte's decimal rendering followed by one space, in index order. */
  function Items(bytes: seq<byte>): string
  {
    if bytes == [] then "" else Items(bytes[..|bytes| - 1]) + Decimal(bytes[|bytes| - 1]) + " "
  }

  /** The opstring literal for bytes. */
  function Literal(bytes: seq<byte>): string
  {
    "make " + Items(bytes) + "endmake "
  }

  /** `Print(bytes)`: builds the literal by appending one byte at a time. */
  method Print(bytes: array<byte>) returns (ret: string)
    ensures ret == Literal(bytes[..])
    ensures bytes.Length == 0 ==> ret == "make endmake "
  {
    ret := "make ";
    for i := 0 to bytes.Length
      invariant ret == "make " + Items(bytes[..i])
    {
      assert bytes[..i + 1][..i] == bytes[..i];
      ret := ret + Decimal(bytes[i]) + " ";
    }
    assert bytes[..bytes.Length] == bytes[..];
    ret := ret + "endmake ";
  }

  // ---------------------------------------------------------------------
  // Tokenizing on single spaces, as `string.Split(' ')` does

  /** The pieces of s between single spaces; s ending in a space gives a final "". */
  function Split(s: string): (pieces: seq<string>)
    ensures pieces != []
  {
    if s == [] then [""]
    else if s[0] == ' ' then [""] + Split(s[1..])
    else var t := Split(s[1..]); [[s[0]] + t[0]] + t[1..]
  }

  /** A word without spaces followed by a space splits off as one token. */
  lemma {:induction false} SplitWord(w: string, rest: string)
    requires forall i :: 0 <= i < |w| ==> w[i] != ' '
    ensures Split(w + " " + rest) == [w] + Split(rest)
  {
    if w == [] {
      assert w + " " + rest == [' '] + rest;
      assert ([' '] + rest)[1..] == rest;
    } else {
      assert (w + " " + rest)[1..] == w[1..] + " " + rest;
      SplitWord(w[1..], rest);
      assert [w[0]] + w[1..] == w;
    }
  }

  /** The decimal token of each byte, in index order. */
  function DecimalTokens(bytes: seq<byte>): (tokens: seq<string>)
    ensures |tokens| == |bytes|
  {
    if bytes == [] then [] else DecimalTokens(bytes[..|bytes| - 1]) + [Decimal(bytes[|bytes| - 1])]
  }

  /** The byte items of a literal split into exactly the decimal tokens of the bytes. */
  lemma {:induction false} SplitItems(bytes: seq<byte>, rest: string)
    ensures Split(Items(bytes) + rest) == DecimalTokens(bytes) + Split(rest)
  {
    if bytes != [] {
      var n := |bytes| - 1;
      var d := Decimal(bytes[n]);
      assert Items(bytes) + rest == Items(bytes[..n]) + (d + " " + rest);
      SplitItems(bytes[..n], d + " " + rest);
      SplitWord(d, rest);
      calc {
        Split(Items(bytes) + rest);
        DecimalTokens(bytes[..n]) + Split(d + " " + rest);
        DecimalTokens(bytes[..n]) + ([d] + Split(rest));
        (DecimalTokens(bytes[..n]) + [d]) + Split(rest);
        { assert DecimalTokens(bytes) == DecimalTokens(bytes[..n]) + [d]; }
        DecimalTokens(bytes) + Split(rest);
      }
    } else {
      assert Items(bytes) + rest == rest;
    }
  }

  /** The tokens of a literal: "make", one decimal token per byte, "endmake". */
  function LiteralTokens(bytes: seq<byte>): seq<string>
  {
    ["make"] + DecimalTokens(bytes) + ["endmake"]
  }

  /** A literal is the keyword `make`, a space, the byte items, `endmake` and a space. */
  lemma LiteralParts(bytes: seq<byte>, rest: string)
    ensures Literal(bytes) + rest == "make" + " " + (Items(bytes) + ("endmake" + " " + rest))
  {
    assert "make " == "make" + " " && "endmake " == "endmake" + " ";
  }

  /** A literal followed by more text splits into the literal's tokens, then the rest's. */
  lemma SplitLiteral(bytes: seq<byte>, rest: string)
    ensures Split(Literal(bytes) + rest) == LiteralTokens(bytes) + Split(rest)
  {
    var tail := "endmake" + " " + rest;
    var body := Items(bytes) + tail;
    LiteralParts(bytes, rest);
    SplitWord("make", body);
    SplitItems(bytes, tail);
    SplitWord("endmake", rest);
    calc {
      Split(Literal(bytes) + rest);
      ["make"] + Split(body);
      ["make"] + (DecimalTokens(bytes) + Split(tail));
      ["make"] + (DecimalTokens(bytes) + (["endmake"] + Split(rest)));
      LiteralTokens(bytes) + Split(rest);
    }
  }

  /** The tokens of s: its pieces between single spaces, less the empty one a final space leaves. */
  function Tokens(s: string): seq<string>
  {
    var pieces := Split(s);
    if pieces[|pieces| - 1] == "" then pieces[..|pieces| - 1] else pieces
  }

  /** The byte each token denotes, or None when a token is not a decimal below 256. */
  function ParseBytes(tokens: seq<string>): Option<seq<byte>>
  {
    if tokens == [] then Some([])
    else match (ParseBytes(tokens[..|tokens| - 1]), ParseDecimal(tokens[|tokens| - 1]))
      case (Some(bytes), Some(v)) => if v < 0x100 then Some(bytes + [v]) else None
      case _ => None
  }

  /** Reads a literal's tokens back into its bytes. */
  function ParseLiteral(tokens: seq<string>): Option<seq<byte>>
  {
    if |tokens| < 2 || tokens[0] != "make" || tokens[|tokens| - 1] != "endmake" then None
    else ParseBytes(tokens[1..|tokens| - 1])
  }

  lemma {:induction false} ParseDecimalTokens(bytes: seq<byte>)
    ensures ParseBytes(DecimalTokens(bytes)) == Some(bytes)
  {
    if bytes != [] {
      var n := |bytes| - 1;
      var tokens := DecimalTokens(bytes);
      assert tokens[..n] == DecimalTokens(bytes[..n]);
      ParseDecimalTokens(bytes[..n]);
      DecimalRoundTrip(bytes[n]);
      assert bytes[..n] + [bytes[n]] == bytes;
    }
  }

  /**
   * Round trip of `Print`: the tokens of a literal are "make", one decimal
   * token per byte and "endmake", and parsing them gives the bytes back.
   */
  lemma LiteralRoundTrip(bytes: seq<byte>)
    ensures Tokens(Literal(bytes)) == LiteralTokens(bytes)
    ensures |Tokens(Literal(bytes))| == |bytes| + 2
    ensures ParseLiteral(Tokens(Literal(bytes))) == Some(bytes)
  {
    SplitLiteral(bytes, "");
    assert Literal(bytes) + "" == Literal(bytes);
    var tokens := LiteralTokens(bytes);
    assert tokens[1..|tokens| - 1] == DecimalTokens(bytes);
    ParseDecimalTokens(bytes);
  }

  /** Different arrays print as different literals. */
  lemma LiteralInjective(a: seq<byte>, b: seq<byte>)
    ensures Literal(a) == Literal(b) ==> a == b
  {
    LiteralRoundTrip(a);
    LiteralRoundTrip(b);
  }

  /**
   * An opstring of two literals and an operator, as the tests build them,
   * tokenizes to the first literal's tokens, the second's, then the operator.
   */
  lemma BinaryOpstringTokens(first: seq<byte>, second: seq<byte>, op: string)
    requires op != [] && forall i :: 0 <= i < |op| ==> op[i] != ' '
    ensures Tokens(Literal(first) + Literal(second) + op) == LiteralTokens(first) + LiteralTokens(second) + [op]
  {
    assert Literal(first) + Literal(second) + op == Literal(first) + (Literal(second) + op);
    SplitLiteral(first, Literal(second) + op);
    SplitLiteral(second, op);
    OpOnlyPiece(op);
  }

  /** A word without spaces is a single piece. */
  lemma {:induction false} OpOnlyPiece(w: string)
    requires forall i :: 0 <= i < |w| ==> w[i] != ' '
    ensures Split(w) == [w]
  {
    if w != [] {
      OpOnlyPiece(w[1..]);
      assert [w[0]] + w[1..] == w;
    }
  }

  /** A literal followed by the base `0` and the operator, as at the Log(0, >1) scenario. */
  lemma LiteralZeroLogTokens(bytes: seq<byte>)
    ensures Tokens(Literal(bytes) + "0 bLog") == LiteralTokens(bytes) + ["0", "bLog"]
  {
    SplitLiteral(bytes, "0 bLog");
    assert "0 bLog" == "0" + " " + "bLog";
    SplitWord("0", "bLog");
    OpOnlyPiece("bLog");
    assert Split(Literal(bytes) + "0 bLog") == LiteralTokens(bytes) + ["0", "bLog"];
  }

  /** The value `1`, a literal, then the operator, as at the base = 1 scenario. */
  lemma OneLiteralLogTokens(bytes: seq<byte>)
    ensures Tokens("1 " + Literal(bytes) + "bLog") == ["1"] + LiteralTokens(bytes) + ["bLog"]
  {
    assert "1 " + Literal(bytes) + "bLog" == "1" + " " + (Literal(bytes) + "bLog");
    SplitWord("1", Literal(bytes) + "bLog");
    SplitLiteral(bytes, "bLog");
    OpOnlyPiece("bLog");
    assert Split("1 " + Literal(bytes) + "bLog") == ["1"] + (LiteralTokens(bytes) + ["bLog"]);
  }
}
