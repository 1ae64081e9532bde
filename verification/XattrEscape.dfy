/** print_xattr_val: a value is escaped in the very buffer that it was read into. */
module XattrEscape {
  import opened FileBytes

  const BACKSLASH: byte := 92
  const LETTER_X: byte := 120

  predicate Printable(b: byte) {
    32 <= b <= 126
  }

  function ToHex(n: int): byte
    requires 0 <= n < 16
  {
    if n < 10 then (48 + n) as byte else (87 + n) as byte
  }

  function EscapedByte(b: byte): (r: seq<byte>)
    ensures |r| == if Printable(b) then 1 else 4
  {
    if Printable(b) then [b] else [BACKSLASH, LETTER_X, ToHex(b / 16), ToHex(b % 16)]
  }

  function Escaped(s: seq<byte>): (r: seq<byte>)
    ensures |s| <= |r| <= 4 * |s|
    ensures (exists k :: 0 <= k < |s| && Printable(s[k])) ==> |r| <= 4 * |s| - 3
    ensures (forall k :: 0 <= k < |s| ==> !Printable(s[k])) ==> |r| == 4 * |s|
  {
    if s == [] then [] else Escaped(s[..|s| - 1]) + EscapedByte(s[|s| - 1])
  }

  predicate SomePrintable(s: seq<byte>) {
    exists k :: 0 <= k < |s| && Printable(s[k])
  }

  lemma EscapedStep(value: seq<byte>, i: nat)
    requires i < |value|
    ensures Escaped(value[..i + 1]) == Escaped(value[..i]) + EscapedByte(value[i])
    ensures SomePrintable(value[..i + 1]) <==> SomePrintable(value[..i]) || Printable(value[i])
  {
    assert value[..i + 1][..i] == value[..i];
    assert value[..i + 1][i] == value[i];
    assert forall k :: 0 <= k < i ==> value[..i + 1][k] == value[..i][k];
  }

  /** One round of the loop: the input byte at `at` is read for the last time before the cursor gets there. */
  method EmitByte(buf: array<byte>, at: nat, cursor: nat) returns (out: nat)
    requires at < buf.Length && cursor + 3 <= at
    modifies buf
    ensures out == cursor + |EscapedByte(old(buf[at]))|
    ensures out <= buf.Length && buf[..out] == old(buf[..cursor]) + EscapedByte(old(buf[at]))
    ensures |EscapedByte(old(buf[at]))| == (if Printable(old(buf[at])) then 1 else 4) && buf[out - 1] != 0
    ensures forall k :: out <= k < buf.Length ==> buf[k] == old(buf[k])
  {
    ghost var before, b := buf[..cursor], buf[at];
    out := cursor;
    if 32 <= buf[at] <= 126 {
      buf[out] := buf[at];
      out := out + 1;
    } else {
      buf[out] := BACKSLASH;
      buf[out + 1] := LETTER_X;
      buf[out + 2] := ToHex(buf[at] / 16);
      buf[out + 3] := ToHex(buf[at] % 16);
      out := out + 4;
    }
    assert buf[..cursor] == before;
    assert buf[..out] == before + EscapedByte(b);
  }

  /** The loop and the trim.  `buf` has room for four characters a byte and one more, and the value lies in
      its last quarter; `len` is the length of the string that is left at the front.  No byte is
      overwritten before its last read in the loop, but the trim may look at a byte that has been. */
  method EscapeInPlace(buf: array<byte>, size: nat) returns (len: nat)
    requires buf.Length == 4 * size + 1
    modifies buf
    ensures var value := old(buf[3 * size..4 * size]);
            && len == |Escaped(value)| - (if size > 0 && value[size - 1] == 0 && SomePrintable(value) then 4 else 0)
            && len <= 4 * size && buf[..len] == Escaped(value)[..len] && buf[len] == 0
  {
    hide Escaped, EscapedByte, SomePrintable;
    ghost var value := buf[3 * size..4 * size];
    var out: nat := 0;
    var i := 0;
    NothingEscaped();
    while i < size
      invariant 0 <= i <= size && out <= 4 * i
      invariant buf[..out] == Escaped(value[..i])
      invariant SomePrintable(value[..i]) <==> out < 4 * i
      invariant out < 4 * i ==> out + 3 <= 4 * i
      invariant forall k :: 3 * size + i <= k < 4 * size ==> buf[k] == value[k - 3 * size]
      invariant i > 0 && out < 4 * i ==> buf[3 * size + i - 1] == value[i - 1]
      invariant i > 0 && out == 4 * i ==> buf[out - 1] != 0 && !Printable(value[i - 1])
    {
      EscapedStep(value, i);
      out := EmitByte(buf, 3 * size + i, out);
      i := i + 1;
    }
    assert value[..size] == value;
    LastEscaped(value);
    if i > 0 && buf[3 * size + i - 1] == 0 {
      out := out - 4;
    }
    assert buf[..out] == Escaped(value)[..out];
    buf[out] := 0;
    len := out;
  }

  // The bounds of what is printed as it is, and the digits of what is not: NUL, the byte below the space, the
  // space, the tilde, DEL, and the last byte.
  lemma KnownEscapes()
    ensures Escaped([0]) == [92, 120, 48, 48] && Escaped([31]) == [92, 120, 49, 102]
    ensures Escaped([32]) == [32] && Escaped([126]) == [126]
    ensures Escaped([127]) == [92, 120, 55, 102] && Escaped([255]) == [92, 120, 102, 102]
  {
    forall b: byte ensures Escaped([b]) == EscapedByte(b) {
      assert [b][..0] == [] && Escaped([]) == [];
    }
  }

  lemma NothingEscaped()
    ensures Escaped([]) == [] && !SomePrintable([])
  {
  }

  lemma LastEscaped(value: seq<byte>)
    ensures value != [] && value[|value| - 1] == 0 ==> |Escaped(value)| >= 4
  {
  }

  // The final NUL of a value is left off exactly when the value has a printable byte.
  lemma TrimIff(value: seq<byte>, len: nat)
    requires value != [] && value[|value| - 1] == 0
    requires len == |Escaped(value)| - (if value[|value| - 1] == 0 && SomePrintable(value) then 4 else 0)
    ensures Escaped(value)[..len] == Escaped(value[..|value| - 1]) <==> SomePrintable(value)
  {
  }

  // One NUL byte alone: its escape is printed, although it is the terminating NUL.
  lemma LoneNul()
    ensures !SomePrintable([0 as byte]) && |Escaped([0 as byte])| == 4
  {
  }

  // Reading the printed string back.

  predicate IsHex(b: byte) {
    48 <= b <= 57 || 97 <= b <= 102
  }

  function FromHex(b: byte): int
    requires IsHex(b)
  {
    if b <= 57 then b - 48 else b - 87
  }

  predicate EscapeAt(t: seq<byte>) {
    |t| >= 4 && t[0] == BACKSLASH && t[1] == LETTER_X && IsHex(t[2]) && IsHex(t[3])
  }

  function Unescaped(t: seq<byte>): (r: seq<byte>) {
    if t == [] then []
    else if EscapeAt(t) then [(16 * FromHex(t[2]) + FromHex(t[3])) as byte] + Unescaped(t[4..])
    else [t[0]] + Unescaped(t[1..])
  }

  /** Four printable bytes of the value that look like an escape. */
  predicate RawEscape(s: seq<byte>) {
    exists k {:trigger s[k..]} :: 0 <= k <= |s| && EscapeAt(s[k..])
  }

  lemma {:induction false} EscapedConcat(a: seq<byte>, b: seq<byte>)
    ensures Escaped(a + b) == Escaped(a) + Escaped(b)
    decreases |b|
  {
    hide Printable, EscapedByte;
    if b == [] {
      assert a + b == a && Escaped([]) == [];
    } else {
      var s, front := a + b, b[..|b| - 1];
      assert s[..|s| - 1] == a + front && s[|s| - 1] == b[|b| - 1];
      EscapedConcat(a, front);
      assert Escaped(a) + (Escaped(front) + EscapedByte(b[|b| - 1])) == (Escaped(a) + Escaped(front)) + EscapedByte(b[|b| - 1]);
    }
  }

  lemma EscapedFirst(s: seq<byte>)
    requires s != []
    ensures Escaped(s) == EscapedByte(s[0]) + Escaped(s[1..])
  {
    assert s == [s[0]] + s[1..];
    EscapedConcat([s[0]], s[1..]);
    assert Escaped([s[0]]) == EscapedByte(s[0]) by {
      assert [s[0]][..0] == [] && Escaped([]) == [];
    }
  }

  // What a printed string begins with.
  lemma PrintedFirst(s: seq<byte>)
    ensures s == [] ==> Escaped(s) == []
    ensures s != [] && Printable(s[0]) ==> Escaped(s) == [s[0]] + Escaped(s[1..])
    ensures s != [] && !Printable(s[0]) ==> |Escaped(s)| >= 4 && Escaped(s)[0] == BACKSLASH
  {
    if s != [] {
      EscapedFirst(s);
    }
  }

  // An escape at the front of a printed string is an escaped byte, or four raw ones.
  lemma FrontEscape(s: seq<byte>)
    requires s != [] && Printable(s[0])
    ensures EscapeAt(Escaped(s)) <==> EscapeAt(s)
    ensures EscapeAt(s) ==> Escaped(s) == s[..4] + Escaped(s[4..])
  {
    hide Escaped, EscapedByte;
    PrintedFirst(s);
    var a := s[1..];
    PrintedFirst(a);
    if a != [] && Printable(a[0]) {
      var b := a[1..];
      PrintedFirst(b);
      if b != [] && Printable(b[0]) {
        var c := b[1..];
        PrintedFirst(c);
        if c != [] && Printable(c[0]) {
          assert c[1..] == s[4..] && s[..4] == [s[0], a[0], b[0], c[0]];
          assert Escaped(s) == [s[0], a[0], b[0], c[0]] + Escaped(s[4..]);
        }
      }
    }
  }

  lemma {:induction false} UnescapedLength(s: seq<byte>)
    ensures |Unescaped(Escaped(s))| <= |s|
    ensures RawEscape(s) ==> |Unescaped(Escaped(s))| < |s|
    ensures !RawEscape(s) ==> Unescaped(Escaped(s)) == s
    decreases |s|
  {
    hide Escaped, EscapedByte, RawEscape;
    PrintedFirst([]);
    NoRawEscape();
    if s != [] {
      var t := Escaped(s);
      EscapedFirst(s);
      if !Printable(s[0]) {
        HexByte(s[0]);
        assert t[4..] == Escaped(s[1..]);
        assert !EscapeAt(s);
        RawEscapeTail(s);
        UnescapedLength(s[1..]);
      } else {
        FrontEscape(s);
        if EscapeAt(s) {
          UnescapedLength(s[4..]);
          RawEscapeFront(s);
          assert t[4..] == Escaped(s[4..]);
        } else {
          PrintedFirst(s);
          assert t[1..] == Escaped(s[1..]);
          RawEscapeTail(s);
          UnescapedLength(s[1..]);
        }
      }
    }
  }

  lemma NoRawEscape()
    ensures !RawEscape([])
  {
  }

  lemma RawEscapeFront(s: seq<byte>)
    requires EscapeAt(s)
    ensures RawEscape(s)
  {
    assert s[0..] == s;
  }

  lemma HexByte(b: byte)
    requires !Printable(b)
    ensures |EscapedByte(b)| == 4 && EscapeAt(EscapedByte(b)) && 16 * FromHex(EscapedByte(b)[2]) + FromHex(EscapedByte(b)[3]) == b
  {
  }

  lemma RawEscapeTail(s: seq<byte>)
    requires s != [] && !EscapeAt(s)
    ensures RawEscape(s) <==> RawEscape(s[1..])
  {
    if k :| 0 <= k <= |s| && EscapeAt(s[k..]) {
      assert s[0..] == s;
      assert s[1..][k - 1..] == s[k..];
    }
    if k :| 0 <= k <= |s[1..]| && EscapeAt(s[1..][k..]) {
      assert s[1..][k..] == s[k + 1..];
    }
  }

  // The printed string tells the value exactly when the value has no four bytes that look like an escape:
  // the backslash itself is not escaped.
  lemma RoundTripIff(s: seq<byte>)
    ensures Unescaped(Escaped(s)) == s <==> !RawEscape(s)
  {
    UnescapedLength(s);
  }
}
