/** Printing strings and integers as JSON: the sink, sink_add_escaped and sink_add_int, and reading back what they print. */
module JsonPrint {
  import opened Bytes
  import opened JsonGrammar
  import opened JsonMeaning

  const MAX_TEXT := 1024 * 1024

  // ----- UTF-8 -----

  /** The length of the character at the head of s, or 0 when there is none (section 4 of RFC 3629). */
  function CharLength(s: bytes): (n: nat)
    requires s != []
    ensures n <= |s|
  {
    if s[0] < 0x80 then 1
    else if |s| >= 2 && IsMultibyte(s[..2]) then 2
    else if |s| >= 3 && IsMultibyte(s[..3]) then 3
    else if |s| >= 4 && IsMultibyte(s[..4]) then 4
    else 0
  }

  predicate ValidUtf8(s: bytes)
    decreases |s|
  {
    s == [] || (CharLength(s) > 0 && ValidUtf8(s[CharLength(s)..]))
  }

  // ----- escaping -----

  function HexDigit(d: nat): (c: byte)
    requires d < 16
  {
    if d < 10 then 0x30 + d else 0x61 + d - 10
  }

  /** How sink_add_escaped writes one byte. */
  function EscapeByte(c: byte): bytes {
    if c >= 0x20 && c != 0x22 && c != 0x5C then [c]
    else if c == 0x22 || c == 0x5C then [0x5C, c]
    else if c == 0x0A then [0x5C, 0x6E]
    else if c == 0x0D then [0x5C, 0x72]
    else if c == 0x09 then [0x5C, 0x74]
    else [0x5C, 0x75, 0x30, 0x30, HexDigit(c / 16), HexDigit(c % 16)]
  }

  function EscapeText(s: bytes): bytes { if s == [] then [] else EscapeByte(s[0]) + EscapeText(s[1..]) }

  lemma {:induction false} EscapeConcat(a: bytes, b: bytes)
    ensures EscapeText(a + b) == EscapeText(a) + EscapeText(b)
    decreases |a|
  {
    hide EscapeByte;
    if a == [] {
      assert a + b == b;
    } else {
      EscapeConcat(a[1..], b);
      assert (a + b)[1..] == a[1..] + b;
    }
  }

  lemma {:induction false} EscapePlain(s: bytes)
    requires forall k :: 0 <= k < |s| ==> s[k] >= 0x20 && s[k] != 0x22 && s[k] != 0x5C
    ensures EscapeText(s) == s
    decreases |s|
  {
    if s != [] { EscapePlain(s[1..]); }
  }

  lemma EscapeOne(c: byte)
    ensures EscapeText([c]) == EscapeByte(c)
  {
    assert EscapeText([c]) == EscapeByte(c) + EscapeText([]);
  }

  /** The same, as characters of the JSON grammar. */
  function PieceOf(c: byte): Piece
    requires c < 0x80
  {
    if c == 0x22 || c == 0x5C then Short(c)
    else if c >= 0x20 then Plain(c)
    else if c == 0x0A then Short(0x6E)
    else if c == 0x0D then Short(0x72)
    else if c == 0x09 then Short(0x74)
    else Unicode([0x30, 0x30, HexDigit(c / 16), HexDigit(c % 16)])
  }

  function Pieces(s: bytes): seq<Piece>
    requires ValidUtf8(s)
    decreases |s|
  {
    if s == [] then []
    else
      var n := CharLength(s);
      [if s[0] < 0x80 then PieceOf(s[0]) else Multi(s[..n])] + Pieces(s[n..])
  }

  lemma AsciiPiece(c: byte)
    requires c < 0x80
    ensures IsPiece(PieceOf(c)) && PieceText(PieceOf(c)) == EscapeByte(c) && PieceValue(PieceOf(c)) == [c]
  {
    if c < 0x20 {
      var h := [0x30, 0x30, HexDigit(c / 16), HexDigit(c % 16)];
      assert IsHex4(h);
      assert HexValue(h[2]) == c / 16 && HexValue(h[3]) == c % 16;
      assert Hex4Value(h) == c;
    }
  }

  lemma MultiPiece(s: bytes)
    requires s != [] && s[0] >= 0x80 && CharLength(s) > 0
    ensures var u := s[..CharLength(s)]; IsPiece(Multi(u)) && EscapeText(u) == u
  {
    EscapePlain(s[..CharLength(s)]);
  }

  /** A printed string is a JSON string, and it stands for the text that was printed. */
  lemma {:induction false} EscapeRoundTrip(s: bytes)
    requires ValidUtf8(s)
    ensures ArePieces(Pieces(s)) && StringText(Pieces(s)) == EscapeText(s) && Decoded(Pieces(s)) == s
    decreases |s|
  {
    hide IsPiece, PieceText, PieceValue, CharLength, EscapeByte, PieceOf;
    if s != [] {
      var n := CharLength(s);
      var head, tail := s[..n], s[n..];
      var p := if s[0] < 0x80 then PieceOf(s[0]) else Multi(head);
      HeadPiece(s, p);
      EscapeRoundTrip(tail);
      assert s == head + tail;
      EscapeConcat(head, tail);
      var ps := [p] + Pieces(tail);
      assert ps[0] == p && ps[1..] == Pieces(tail);
    }
  }

  lemma HeadPiece(s: bytes, p: Piece)
    requires s != [] && CharLength(s) > 0 && p == if s[0] < 0x80 then PieceOf(s[0]) else Multi(s[..CharLength(s)])
    ensures var head := s[..CharLength(s)]; IsPiece(p) && PieceText(p) == EscapeText(head) && PieceValue(p) == head
  {
    hide EscapeByte, PieceOf, EscapeText;
    if s[0] < 0x80 {
      AsciiPiece(s[0]);
      EscapeOne(s[0]);
      assert s[..CharLength(s)] == [s[0]];
    } else {
      MultiPiece(s);
    }
  }

  // ----- integers -----

  const LONG_MIN := -0x8000_0000_0000_0000
  const LONG_MAX := 0x7FFF_FFFF_FFFF_FFFF

  function Digits(n: nat): (d: bytes)
    ensures |d| >= 1 && AreDigits(d) && (d[0] == 0x30 ==> n == 0 && |d| == 1)
  {
    if n < 10 then [0x30 + n] else Digits(n / 10) + [0x30 + n % 10]
  }

  lemma {:induction false} DigitsBack(n: nat)
    ensures DigitsValue(Digits(n)) == n
    decreases n
  {
    var d := Digits(n);
    if n >= 10 {
      DigitsBack(n / 10);
      assert d[..|d| - 1] == Digits(n / 10);
    } else {
      assert d[..0] == [];
    }
  }

  function IntText(v: int): bytes { if v < 0 then [0x2D] + Digits(-v) else Digits(v) }

  /** A printed integer is a JSON number without fraction or exponent. */
  function IntNumber(v: int): Number {
    Number(v < 0, if v < 0 then Digits(-v) else Digits(v), None, None)
  }

  lemma IntNumberText(v: int)
    ensures IsNumber(IntNumber(v)) && NumberText(IntNumber(v)) == IntText(v)
  {
  }

  function Pow10(k: nat): (p: nat)
    ensures p >= 1
  {
    if k == 0 then 1 else 10 * Pow10(k - 1)
  }

  // ----- the sink -----

  /** What a sink holds: the text so far, or the knowledge that some text did not fit. */
  datatype Held = Held(text: bytes, overflow: bool)

  /** Appending t to what a sink of `cap` bytes holds. */
  ghost predicate Grew(cap: nat, before: Held, after: Held, t: bytes) {
    && |after.text| < cap
    && after.overflow == (before.overflow || |before.text| + |t| >= cap)
    && (!after.overflow ==> after.text == before.text + t)
  }

  lemma GrewTwice(cap: nat, x: Held, y: Held, z: Held, a: bytes, b: bytes)
    requires Grew(cap, x, y, a) && Grew(cap, y, z, b)
    ensures Grew(cap, x, z, a + b)
  {
  }

  lemma GrewNone(cap: nat, x: Held)
    requires |x.text| < cap
    ensures Grew(cap, x, x, [])
  {
  }

  class Sink {
    const buf: array<byte>
    var len: nat
    var overflow: bool

    ghost predicate Valid()
      reads this
    {
      len < buf.Length
    }

    ghost function State(): (h: Held)
      reads this, buf
      requires Valid()
      ensures |h.text| < buf.Length
    {
      Held(buf[..len], overflow)
    }

    constructor (b: array<byte>)
      requires b.Length > 0
      modifies b
      ensures buf == b && Valid() && State() == Held([], false) && buf[len] == 0
    {
      buf, len, overflow := b, 0, false;
      new;
      b[0] := 0;
    }

    method AddBytes(t: bytes)
      requires Valid()
      modifies this, buf
      ensures Valid() && Grew(buf.Length, old(State()), State(), t)
      ensures !overflow ==> buf[len] == 0
    {
      if overflow { return; }
      if |t| >= buf.Length - len {
        overflow := true;
        return;
      }
      forall k | 0 <= k < |t| { buf[len + k] := t[k]; }
      assert buf[..len + |t|] == old(buf[..len]) + t;
      len := len + |t|;
      buf[len] := 0;
      assert buf[..len] == old(buf[..len]) + t;
    }

    method Put(c: byte)
      requires Valid()
      modifies this, buf
      ensures Valid() && Grew(buf.Length, old(State()), State(), [c])
    {
      if overflow { return; }
      if len + 1 >= buf.Length {
        overflow := true;
        return;
      }
      buf[len] := c;
      len := len + 1;
    }

    method Terminate()
      requires Valid()
      modifies buf
      ensures State() == old(State()) && (!overflow ==> buf[len] == 0)
    {
      if !overflow { buf[len] := 0; }
    }

    /** The escape of a byte that cannot stand for itself. */
    method AddEscape(c: byte)
      requires Valid() && (c < 0x20 || c == 0x22 || c == 0x5C)
      modifies this, buf
      ensures Valid() && Grew(buf.Length, old(State()), State(), EscapeByte(c))
    {
      if c == 0x22 {
        AddBytes([0x5C, 0x22]);
      } else if c == 0x5C {
        AddBytes([0x5C, 0x5C]);
      } else if c == 0x0A {
        AddBytes([0x5C, 0x6E]);
      } else if c == 0x0D {
        AddBytes([0x5C, 0x72]);
      } else if c == 0x09 {
        AddBytes([0x5C, 0x74]);
      } else {
        AddBytes([0x5C, 0x75, 0x30, 0x30]);
        Put(HexDigit(c / 16));
        Put(HexDigit(c % 16));
      }
    }

    /** sink_add_escaped, of a C string. */
    method AddEscaped(text: bytes)
      requires Valid() && 0 !in text
      modifies this, buf
      ensures Valid() && Grew(buf.Length, old(State()), State(), EscapeText(Printable(text)))
      ensures !overflow ==> buf[len] == 0
    {
      hide EscapeByte, EscapeText, Grew;
      var plain, i := 0, 0;
      assert text[..0] == [];
      EscapePlain([]);
      ghost var was := State();
      GrewNone(buf.Length, was);
      while i < MAX_TEXT && i < |text|
        invariant 0 <= plain <= i <= |text| && i <= MAX_TEXT && Valid()
        invariant forall k :: plain <= k < i ==> text[k] >= 0x20 && text[k] != 0x22 && text[k] != 0x5C
        invariant Grew(buf.Length, was, State(), EscapeText(text[..plain]))
      {
        var c := text[i];
        if c >= 0x20 && c != 0x22 && c != 0x5C {
          i := i + 1;
          continue;
        }
        AddRun(text, plain, i, was);
        ghost var mid := State();
        EscapeNext(text, i);
        AddEscape(c);
        GrewTwice(buf.Length, was, mid, State(), EscapeText(text[..i]), EscapeByte(c));
        i := i + 1;
        plain := i;
      }
      AddRun(text, plain, i, was);
      assert text[..i] == Printable(text);
      Terminate();
    }

    /** The bytes since the last escape, which stand for themselves. */
    method AddRun(text: bytes, plain: nat, i: nat, ghost was: Held)
      requires Valid() && plain <= i <= |text|
      requires forall k :: plain <= k < i ==> text[k] >= 0x20 && text[k] != 0x22 && text[k] != 0x5C
      requires Grew(buf.Length, was, State(), EscapeText(text[..plain]))
      modifies this, buf
      ensures Valid() && Grew(buf.Length, was, State(), EscapeText(text[..i]))
    {
      hide EscapeText, Grew;
      EscapeGrows(text, plain, i);
      ghost var mid := State();
      if i > plain {
        AddBytes(text[plain..i]);
        GrewTwice(buf.Length, was, mid, State(), EscapeText(text[..plain]), text[plain..i]);
      }
    }

    /** sink_add_int. */
    method AddInt(value: int)
      requires Valid() && LONG_MIN <= value <= LONG_MAX
      modifies this, buf
      ensures Valid() && Grew(buf.Length, old(State()), State(), IntText(value))
      ensures !overflow ==> buf[len] == 0
    {
      hide Grew, Digits;
      var magnitude := value;
      ghost var was := State();
      GrewNone(buf.Length, was);
      if value < 0 {
        Put(0x2D);
        magnitude := -(value + 1) + 1;
      }
      ghost var mid := State();
      var digits := ReversedDigits(magnitude);
      PutReversed(digits);
      GrewTwice(buf.Length, was, mid, State(), if value < 0 then [0x2D] else [], Digits(magnitude));
      assert [] + Digits(magnitude) == Digits(magnitude);
      Terminate();
    }

    method PutReversed(digits: bytes)
      requires Valid()
      modifies this, buf
      ensures Valid() && Grew(buf.Length, old(State()), State(), Reversed(digits))
    {
      hide Reversed, Grew;
      ghost var was := State();
      assert digits[|digits|..] == [];
      ReversedNothing();
      GrewNone(buf.Length, was);
      var n := |digits|;
      while n > 0
        invariant 0 <= n <= |digits| && Valid()
        invariant Grew(buf.Length, was, State(), Reversed(digits[n..]))
      {
        n := n - 1;
        ghost var mid := State();
        ReversedHead(digits, n);
        Put(digits[n]);
        GrewTwice(buf.Length, was, mid, State(), Reversed(digits[n + 1..]), [digits[n]]);
      }
      assert digits[0..] == digits;
    }
  }

  /** As much of a text as is printed. */
  function Printable(text: bytes): bytes { if |text| <= MAX_TEXT then text else text[..MAX_TEXT] }

  lemma EscapeGrows(text: bytes, plain: nat, i: nat)
    requires plain <= i <= |text|
    requires forall k :: plain <= k < i ==> text[k] >= 0x20 && text[k] != 0x22 && text[k] != 0x5C
    ensures EscapeText(text[..i]) == EscapeText(text[..plain]) + text[plain..i]
  {
    hide EscapeText;
    EscapePlain(text[plain..i]);
    EscapeConcat(text[..plain], text[plain..i]);
    assert text[..i] == text[..plain] + text[plain..i];
  }

  lemma EscapeNext(text: bytes, i: nat)
    requires i < |text|
    ensures EscapeText(text[..i + 1]) == EscapeText(text[..i]) + EscapeByte(text[i])
  {
    hide EscapeText;
    EscapeOne(text[i]);
    EscapeConcat(text[..i], [text[i]]);
    assert text[..i + 1] == text[..i] + [text[i]];
  }

  function Reversed(s: bytes): (r: bytes)
    ensures |r| == |s|
  {
    if s == [] then [] else Reversed(s[1..]) + [s[0]]
  }

  lemma ReversedNothing()
    ensures Reversed([]) == []
  {
  }

  lemma ReversedHead(s: bytes, n: nat)
    requires n < |s|
    ensures Reversed(s[n..]) == Reversed(s[n + 1..]) + [s[n]]
  {
    assert s[n..][1..] == s[n + 1..];
  }

  lemma {:induction false} ReversedAppend(s: bytes, c: byte)
    ensures Reversed(s + [c]) == [c] + Reversed(s)
    decreases |s|
  {
    if s == [] {
      assert s + [c] == [c] && [c][1..] == [];
    } else {
      ReversedAppend(s[1..], c);
      assert (s + [c])[1..] == s[1..] + [c];
    }
  }

  lemma Pow19()
    ensures Pow10(19) == 10_000_000_000_000_000_000
  {
    assert Pow10(5) == 100_000;
    assert Pow10(10) == 10_000_000_000 by { assert Pow10(7) == 10_000_000; }
    assert Pow10(15) == 1_000_000_000_000_000 by { assert Pow10(12) == 1_000_000_000_000; }
    assert Pow10(19) == 10_000_000_000_000_000_000 by { assert Pow10(17) == 100_000_000_000_000_000; }
  }

  /** A number of at most k digits, without its last one. */
  lemma PowStep(n: nat, k: nat)
    requires 0 < n < Pow10(k)
    ensures k > 0 && n / 10 < Pow10(k - 1)
  {
  }

  lemma DigitsStep(n: nat)
    ensures Digits(n) == (if n < 10 then [] else Digits(n / 10)) + [0x30 + n % 10]
  {
  }

  /** The digits of a magnitude, last one first; the room for 24 of them is always enough. */
  method ReversedDigits(value: nat) returns (digits: bytes)
    requires value <= 0x8000_0000_0000_0000
    ensures Reversed(digits) == Digits(value)
  {
    hide Reversed, Digits, Pow10;
    var magnitude := value;
    digits := [0x30 + magnitude % 10];
    magnitude := magnitude / 10;
    Pow19();
    DigitsStep(value);
    ReversedNothing();
    assert [] + digits == digits;
    ReversedAppend([], digits[0]);
    assert [digits[0]] + [] == digits;
    while magnitude > 0 && |digits| < 24
      invariant 1 <= |digits| <= 20 && 0 <= magnitude < Pow10(20 - |digits|)
      invariant Digits(value) == (if magnitude == 0 then [] else Digits(magnitude)) + Reversed(digits)
      decreases magnitude
    {
      PowStep(magnitude, 20 - |digits|);
      DigitsStep(magnitude);
      ReversedAppend(digits, 0x30 + magnitude % 10);
      digits := digits + [0x30 + magnitude % 10];
      magnitude := magnitude / 10;
    }
    assert [] + Reversed(digits) == Reversed(digits);
  }
}
