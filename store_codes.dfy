/** The human-readable note code of store/store.go: ten symbols drawn from a
    30-symbol alphabet, printed in groups of 3, 3 and 4. */
module StoreCodes {
  import opened Common

  const CodeByteSize: int := 12
  const DefaultMaxSecretSize: int := 1024 * 16

  /** The alphabet leaves out 0, 1, i, l, o and u, which are easy to misread. */
  const CodeAlphabet: string := "23456789abcdefghjkmnpqrstvwxyz"

  /** Bytes kept per secret file: the payload, the code and its newline. */
  function MaxSecretStorageSize(maxSecretSize: int): (n: int)
    ensures n - maxSecretSize == CodeByteSize + 1
  {
    maxSecretSize + CodeByteSize + 1
  }

  predicate IsCodeSymbol(c: char) {
    ('2' <= c <= '9') || ('a' <= c <= 'h') || c == 'j' || c == 'k' || c == 'm' || c == 'n'
    || ('p' <= c <= 't') || ('v' <= c <= 'z')
  }

  /** Position of a symbol in CodeAlphabet, computed from its character code. */
  function SymbolIndex(c: char): (i: nat)
    requires IsCodeSymbol(c)
    ensures i < 30
  {
    if c <= '9' then c as int - '2' as int
    else if c <= 'h' then 8 + (c as int - 'a' as int)
    else if c <= 'k' then 16 + (c as int - 'j' as int)
    else if c <= 'n' then 18 + (c as int - 'm' as int)
    else if c <= 't' then 20 + (c as int - 'p' as int)
    else 25 + (c as int - 'v' as int)
  }

  lemma AlphabetShape()
    ensures |CodeAlphabet| == 30
    ensures forall i :: 0 <= i < 30 ==> IsCodeSymbol(CodeAlphabet[i]) && SymbolIndex(CodeAlphabet[i]) == i
    ensures '0' !in CodeAlphabet && '1' !in CodeAlphabet && 'i' !in CodeAlphabet
    ensures 'l' !in CodeAlphabet && 'o' !in CodeAlphabet && 'u' !in CodeAlphabet
  {
  }

  /** A symbol occurs in the alphabet exactly when IsCodeSymbol says so, at SymbolIndex. */
  lemma SymbolIndexInverse(c: char)
    ensures IsCodeSymbol(c) <==> c in CodeAlphabet
    ensures IsCodeSymbol(c) ==> CodeAlphabet[SymbolIndex(c)] == c
  {
    AlphabetShape();
    if c in CodeAlphabet {
      var i :| 0 <= i < |CodeAlphabet| && CodeAlphabet[i] == c;
    }
    if IsCodeSymbol(c) {
      var i := SymbolIndex(c);
      assert IsCodeSymbol(CodeAlphabet[i]) && SymbolIndex(CodeAlphabet[i]) == i;
    }
  }

  /** Ten draws of `rand.Int(rand.Reader, 30)`: each lies in [0, 30). */
  predicate ValidDraws(draws: seq<nat>) {
    |draws| == 10 && forall k :: 0 <= k < 10 ==> draws[k] < 30
  }

  /** The shape the tests check with `[2-9a-hj-km-np-tv-z]{3} ...{3} ...{4}`. */
  predicate IsHumanCode(code: string) {
    && |code| == CodeByteSize
    && code[3] == ' ' && code[7] == ' '
    && forall k :: 0 <= k < 12 && k != 3 && k != 7 ==> IsCodeSymbol(code[k])
  }

  /** generateCodeChar: the alphabet's symbol at a draw. */
  function Symbol(draw: nat): (c: char)
    requires draw < 30
    ensures IsCodeSymbol(c) && SymbolIndex(c) == draw
  {
    SymbolAt(draw);
    CodeAlphabet[draw]
  }

  /** generateCode: c1+c2+c3+" "+c4+c5+c6+" "+c7+c8+c9+c10. */
  function GenerateCode(draws: seq<nat>): (code: string)
    requires ValidDraws(draws)
    ensures IsHumanCode(code)
    ensures |code| == CodeByteSize
  {
    [Symbol(draws[0]), Symbol(draws[1]), Symbol(draws[2]), ' ',
     Symbol(draws[3]), Symbol(draws[4]), Symbol(draws[5]), ' ',
     Symbol(draws[6]), Symbol(draws[7]), Symbol(draws[8]), Symbol(draws[9])]
  }

  /** The draws a human code was printed from. */
  function CodeDraws(code: string): (draws: seq<nat>)
    requires IsHumanCode(code)
    ensures ValidDraws(draws)
  {
    [SymbolIndex(code[0]), SymbolIndex(code[1]), SymbolIndex(code[2]),
     SymbolIndex(code[4]), SymbolIndex(code[5]), SymbolIndex(code[6]),
     SymbolIndex(code[8]), SymbolIndex(code[9]), SymbolIndex(code[10]), SymbolIndex(code[11])]
  }

  /** Different draws print different codes: the draws can be read back. */
  lemma DrawsOfCode(draws: seq<nat>)
    requires ValidDraws(draws)
    ensures CodeDraws(GenerateCode(draws)) == draws
  {
    var back := CodeDraws(GenerateCode(draws));
    assert forall k :: 0 <= k < 10 ==> back[k] == draws[k];
  }

  lemma SymbolAt(i: nat)
    requires i < 30
    ensures IsCodeSymbol(CodeAlphabet[i]) && SymbolIndex(CodeAlphabet[i]) == i
  {
    AlphabetShape();
  }

  /** Every human code is printed from some draws: the ones read back from it. */
  lemma CodeOfDraws(code: string)
    requires IsHumanCode(code)
    ensures GenerateCode(CodeDraws(code)) == code
  {
    SymbolRoundTrip(code[0]); SymbolRoundTrip(code[1]); SymbolRoundTrip(code[2]);
    SymbolRoundTrip(code[4]); SymbolRoundTrip(code[5]); SymbolRoundTrip(code[6]);
    SymbolRoundTrip(code[8]); SymbolRoundTrip(code[9]); SymbolRoundTrip(code[10]); SymbolRoundTrip(code[11]);
    var printed := GenerateCode(CodeDraws(code));
    assert printed[0] == code[0] && printed[1] == code[1] && printed[2] == code[2] && printed[3] == code[3];
    assert printed[4] == code[4] && printed[5] == code[5] && printed[6] == code[6] && printed[7] == code[7];
    assert printed[8] == code[8] && printed[9] == code[9] && printed[10] == code[10] && printed[11] == code[11];
  }

  /** A code symbol is printed back from its index. */
  lemma SymbolRoundTrip(c: char)
    requires IsCodeSymbol(c)
    ensures Symbol(SymbolIndex(c)) == c
  {
    SymbolIndexInverse(c);
  }

  /** Codes are printable ASCII, so they can be stored as bytes. */
  lemma HumanCodeIsAscii(code: string)
    requires IsHumanCode(code)
    ensures IsAscii(code)
  {
  }

  /** Go's `unicode.IsSpace` restricted to ASCII, as used by `strings.TrimSpace`. */
  predicate IsSpaceByte(b: byte) {
    b == 32 || (9 <= b <= 13)
  }

  /** `strings.TrimLeft` of the white space. */
  function TrimLeft(b: seq<byte>): seq<byte> {
    if b != [] && IsSpaceByte(b[0]) then TrimLeft(b[1..]) else b
  }

  /** `strings.TrimRight` of the white space. */
  function TrimRight(b: seq<byte>): seq<byte> {
    if b != [] && IsSpaceByte(b[|b| - 1]) then TrimRight(b[..|b| - 1]) else b
  }

  /** `strings.TrimSpace` on the bytes read from a file. */
  function TrimSpace(b: seq<byte>): seq<byte> {
    TrimRight(TrimLeft(b))
  }

  /** TrimLeft drops exactly the leading white space. */
  lemma {:induction false} TrimLeftShape(b: seq<byte>)
    ensures var r := TrimLeft(b);
      && |r| <= |b| && r == b[|b| - |r|..]
      && (r != [] ==> !IsSpaceByte(r[0]))
      && forall k :: 0 <= k < |b| - |r| ==> IsSpaceByte(b[k])
  {
    if b != [] && IsSpaceByte(b[0]) {
      var t := b[1..];
      TrimLeftShape(t);
      var r := TrimLeft(t);
      assert TrimLeft(b) == r;
      assert r == t[|t| - |r|..];
      assert t[|t| - |r|..] == b[|b| - |r|..];
      forall k | 0 <= k < |b| - |r|
        ensures IsSpaceByte(b[k])
      {
        if k > 0 {
          assert b[k] == t[k - 1];
        }
      }
    }
  }

  /** TrimRight drops exactly the trailing white space. */
  lemma {:induction false} TrimRightShape(b: seq<byte>)
    ensures var r := TrimRight(b);
      && |r| <= |b| && r == b[..|r|]
      && (r != [] ==> !IsSpaceByte(r[|r| - 1]))
      && forall k :: |r| <= k < |b| ==> IsSpaceByte(b[k])
  {
    if b != [] && IsSpaceByte(b[|b| - 1]) {
      var t := b[..|b| - 1];
      TrimRightShape(t);
      var r := TrimRight(t);
      assert TrimRight(b) == r;
      assert r == t[..|r|] && t[..|r|] == b[..|r|];
      forall k | |r| <= k < |b|
        ensures IsSpaceByte(b[k])
      {
        if k < |b| - 1 {
          assert b[k] == t[k];
        }
      }
    }
  }

  /** TrimSpace keeps a contiguous part of its input, drops only white space
      around it, and what it keeps neither begins nor ends with white space. */
  lemma TrimSpaceShape(b: seq<byte>)
    ensures exists i, j ::
      (&& 0 <= i <= j <= |b| && TrimSpace(b) == b[i..j]
       && (forall k :: 0 <= k < i ==> IsSpaceByte(b[k]))
       && (forall k :: j <= k < |b| ==> IsSpaceByte(b[k])))
    ensures TrimSpace(b) != [] ==> !IsSpaceByte(TrimSpace(b)[0]) && !IsSpaceByte(TrimSpace(b)[|TrimSpace(b)| - 1])
  {
    TrimLeftShape(b);
    var l := TrimLeft(b);
    TrimRightShape(l);
    var r := TrimRight(l);
    var i := |b| - |l|;
    var j := i + |r|;
    assert r == b[i..j];
    if r != [] {
      assert r[0] == l[0];
    }
  }

  /** The code part written by Save, read back and trimmed, is the code again. */
  lemma {:induction false} TrimCodeLine(code: string)
    requires IsHumanCode(code)
    ensures IsAscii(code + "\n")
    ensures TrimSpace(Bytes(code + "\n")) == Bytes(code)
  {
    var b := Bytes(code + "\n");
    assert b[0] as int == code[0] as int;
    assert !IsSpaceByte(b[0]);
    assert TrimLeft(b) == b;
    assert b[12] == 10;
    assert b[..12] == Bytes(code);
    assert TrimRight(b) == TrimRight(b[..12]);
    assert !IsSpaceByte(b[11]);
  }
}
