/** UTF-8 encoding of names, and that it keeps their order: code points compare as their bytes do. */
module Utf8 {
  import opened Endian

  type Point = c: nat | c < 0x11_0000

  type Text = seq<Point>

  /** Halves of surrogate pairs have no encoding. */
  predicate Encodable(t: Text) {
    forall i :: 0 <= i < |t| ==> !(0xD800 <= t[i] <= 0xDFFF)
  }

  function EncodePoint(c: Point): (b: seq<Byte>)
    ensures 1 <= |b| <= 4
  {
    if c < 0x80 then [c]
    else if c < 0x800 then [0xC0 + c / 64, Tail(c)]
    else if c < 0x1_0000 then [0xE0 + c / 64 / 64, Tail(c / 64), Tail(c)]
    else [0xF0 + c / 64 / 64 / 64, Tail(c / 64 / 64), Tail(c / 64), Tail(c)]
  }

  /** A continuation byte with the low six bits. */
  function Tail(c: nat): Byte { 0x80 + c % 64 }

  function Encode(t: Text): seq<Byte> {
    if t == [] then [] else EncodePoint(t[0]) + Encode(t[1..])
  }

  /** The bits an encoding carries after its markers, as a number. */
  function Payload(b: seq<int>): int
    requires 1 <= |b| <= 4
  {
    if |b| == 1 then b[0]
    else if |b| == 2 then (b[0] - 192) * 64 + (b[1] - 128)
    else if |b| == 3 then (b[0] - 224) * 4096 + (b[1] - 128) * 64 + (b[2] - 128)
    else (b[0] - 240) * 262144 + (b[1] - 128) * 4096 + (b[2] - 128) * 64 + (b[3] - 128)
  }

  /** The table of section 3 of RFC 3629: one byte below 80, two below 800, three below 10000 and four above,
      with its lead and continuation bytes, carry the code point. */
  lemma PointInBytes(c: Point)
    ensures var b := EncodePoint(c);
            && Payload(b) == c
            && |b| == (if c <= 0x7F then 1 else if c <= 0x7FF then 2 else if c <= 0xFFFF then 3 else 4)
            && (forall i :: 1 <= i < |b| ==> 128 <= b[i] <= 191)
            && (|b| == 1 ==> b[0] <= 127) && (|b| == 2 ==> 194 <= b[0] <= 223)
            && (|b| == 3 ==> 224 <= b[0] <= 239) && (|b| == 4 ==> 240 <= b[0] <= 244)
  {
    var d := c / 64;
    assert c == d * 64 + c % 64;
    assert d == d / 64 * 64 + d % 64;
    assert d / 64 == d / 64 / 64 * 64 + d / 64 % 64;
  }

  /** A continuation byte. */
  predicate IsTail(b: Byte) { 128 <= b <= 191 }

  /** The syntax of one encoded character in section 4 of RFC 3629. */
  predicate WellFormed(b: seq<Byte>) {
    if |b| == 1 then b[0] <= 0x7F
    else if |b| == 2 then 0xC2 <= b[0] <= 0xDF && IsTail(b[1])
    else if |b| == 3 then
      && IsTail(b[1]) && IsTail(b[2])
      && ((b[0] == 0xE0 && b[1] >= 0xA0) || 0xE1 <= b[0] <= 0xEC || (b[0] == 0xED && b[1] <= 0x9F)
          || 0xEE <= b[0] <= 0xEF)
    else
      && |b| == 4 && IsTail(b[1]) && IsTail(b[2]) && IsTail(b[3])
      && ((b[0] == 0xF0 && b[1] >= 0x90) || 0xF1 <= b[0] <= 0xF3 || (b[0] == 0xF4 && b[1] <= 0x8F))
  }

  /** A code point can be encoded exactly when its bytes follow that syntax. */
  lemma PointWellFormed(c: Point)
    ensures WellFormed(EncodePoint(c)) <==> !(0xD800 <= c <= 0xDFFF)
  {
    PointInBytes(c);
  }

  /** A name can be encoded exactly when each of its characters follows the syntax. */
  lemma EncodableExactly(t: Text)
    ensures Encodable(t) <==> forall c :: c in t ==> WellFormed(EncodePoint(c))
  {
    hide WellFormed, EncodePoint;
    forall c | c in t ensures WellFormed(EncodePoint(c)) <==> !(0xD800 <= c <= 0xDFFF) { PointWellFormed(c); }
    if !Encodable(t) {
      var i :| 0 <= i < |t| && 0xD800 <= t[i] <= 0xDFFF;
      assert t[i] in t;
    }
  }

  // ----- order -----

  /** Lexicographic, a prefix first: the order of strings, and of `strcmp` on their bytes. */
  predicate Less(a: seq<nat>, b: seq<nat>) {
    if b == [] then false
    else if a == [] then true
    else a[0] < b[0] || (a[0] == b[0] && Less(a[1..], b[1..]))
  }

  /** `a` comes first exactly when it is a proper beginning of `b` or is smaller at the first difference. */
  lemma {:induction false} LessExactly(a: seq<nat>, b: seq<nat>)
    ensures Less(a, b) <==> exists j :: 0 <= j < |b| && j <= |a| && a[..j] == b[..j] && (j == |a| || a[j] < b[j])
  {
    if a != [] && b != [] {
      LessExactly(a[1..], b[1..]);
      if a[0] == b[0] && Less(a[1..], b[1..]) {
        var j :| 0 <= j < |b[1..]| && j <= |a[1..]| && a[1..][..j] == b[1..][..j]
            && (j == |a[1..]| || a[1..][j] < b[1..][j]);
        assert a[..j + 1] == [a[0]] + a[1..][..j] && b[..j + 1] == [b[0]] + b[1..][..j];
      } else if a[0] < b[0] {
        assert a[..0] == b[..0];
      }
      if j :| 0 <= j < |b| && j <= |a| && a[..j] == b[..j] && (j == |a| || a[j] < b[j]) {
        if j > 0 {
          assert a[0] == a[..j][0] == b[..j][0] == b[0];
          assert a[1..][..j - 1] == a[..j][1..] && b[1..][..j - 1] == b[..j][1..];
        }
      }
    } else if b != [] {
      assert a[..0] == b[..0];
    }
  }

  lemma {:induction false} LessTransitive(a: seq<nat>, b: seq<nat>, c: seq<nat>)
    requires Less(a, b) && Less(b, c)
    ensures Less(a, c)
  {
    if a != [] && a[0] == b[0] == c[0] { LessTransitive(a[1..], b[1..], c[1..]); }
  }

  lemma {:induction false} Trichotomy(a: seq<nat>, b: seq<nat>)
    ensures !Less(a, a)
    ensures !(Less(a, b) && Less(b, a))
    ensures Less(a, b) || a == b || Less(b, a)
  {
    if a != [] && b != [] {
      Trichotomy(a[1..], b[1..]);
      assert a == [a[0]] + a[1..] && b == [b[0]] + b[1..];
    } else if a != [] {
      Trichotomy(a[1..], a[1..]);
    }
  }

  /** The first difference decides. */
  lemma {:induction false} LessAt(a: seq<nat>, b: seq<nat>, j: nat)
    requires j < |a| && j < |b| && a[j] < b[j] && forall k :: 0 <= k < j ==> a[k] == b[k]
    ensures Less(a, b)
  {
    if j > 0 { LessAt(a[1..], b[1..], j - 1); }
  }

  lemma {:induction false} LessAfter(p: seq<nat>, a: seq<nat>, b: seq<nat>)
    requires Less(a, b)
    ensures Less(p + a, p + b)
  {
    if p == [] {
      assert p + a == a && p + b == b;
    } else {
      LessAfter(p[1..], a, b);
      assert (p + a)[1..] == p[1..] + a && (p + b)[1..] == p[1..] + b;
    }
  }

  /** Comparing numbers is comparing their upper groups, then the lowest one. */
  lemma Group(c: nat, d: nat)
    requires c < d
    ensures c / 64 < d / 64 || (c / 64 == d / 64 && Tail(c) < Tail(d))
  {
  }

  /** Where the encodings of two code points first differ, the smaller has the smaller byte. */
  ghost predicate DiffersAt(c: Point, d: Point, j: nat) {
    var x, y := EncodePoint(c), EncodePoint(d);
    j < |x| && j < |y| && x[j] < y[j] && forall k :: 0 <= k < j ==> x[k] == y[k]
  }

  lemma FirstDifference(c: Point, d: Point) returns (j: nat)
    requires c < d
    ensures DiffersAt(c, d, j)
  {
    if |EncodePoint(c)| != |EncodePoint(d)| {
      j := 0;
      LengthsDiffer(c, d);
    } else {
      Group(c, d);
      if c / 64 < d / 64 { Group(c / 64, d / 64); }
      if c / 64 / 64 < d / 64 / 64 { Group(c / 64 / 64, d / 64 / 64); }
      hide Tail;
      if c < 0x80 {
        j := 0;
      } else if c < 0x800 {
        j := if c / 64 < d / 64 then 0 else 1;
      } else if c < 0x1_0000 {
        j := if c / 64 / 64 < d / 64 / 64 then 0 else if c / 64 < d / 64 then 1 else 2;
      } else {
        j := if c / 64 / 64 / 64 < d / 64 / 64 / 64 then 0
             else if c / 64 / 64 < d / 64 / 64 then 1 else if c / 64 < d / 64 then 2 else 3;
      }
    }
  }

  lemma LengthsDiffer(c: Point, d: Point)
    requires c < d && |EncodePoint(c)| != |EncodePoint(d)|
    ensures EncodePoint(c)[0] < EncodePoint(d)[0]
  {
  }

  lemma PointsKeepOrder(c: Point, d: Point, x: seq<Byte>, y: seq<Byte>)
    requires c < d
    ensures Less(EncodePoint(c) + x, EncodePoint(d) + y)
  {
    var j := FirstDifference(c, d);
    hide EncodePoint;
    LessAt(EncodePoint(c) + x, EncodePoint(d) + y, j);
  }

  lemma {:induction false} EncodingIncreases(a: Text, b: Text)
    requires Less(a, b)
    ensures Less(Encode(a), Encode(b))
  {
    hide EncodePoint;
    if a != [] {
      if a[0] < b[0] {
        PointsKeepOrder(a[0], b[0], Encode(a[1..]), Encode(b[1..]));
      } else {
        EncodingIncreases(a[1..], b[1..]);
        LessAfter(EncodePoint(a[0]), Encode(a[1..]), Encode(b[1..]));
      }
    }
  }

  /** Encoding is one to one and keeps the order, both ways. */
  lemma EncodingKeepsOrder(a: Text, b: Text)
    ensures Less(Encode(a), Encode(b)) <==> Less(a, b)
    ensures Encode(a) == Encode(b) <==> a == b
  {
    Trichotomy(a, b);
    Trichotomy(Encode(a), Encode(b));
    if Less(a, b) { EncodingIncreases(a, b); }
    if Less(b, a) { EncodingIncreases(b, a); }
  }

  /** A NUL byte encodes a NUL character and nothing else. */
  lemma {:induction false} EncodingKeepsNul(t: Text)
    ensures 0 in Encode(t) <==> 0 in t
  {
    if t != [] {
      EncodingKeepsNul(t[1..]);
      assert 0 in EncodePoint(t[0]) <==> t[0] == 0;
      assert t == [t[0]] + t[1..];
    }
  }

  /** The text before its first NUL: what a C string of it holds. */
  function Upto(t: Text): Text {
    if t == [] || t[0] == 0 then [] else [t[0]] + Upto(t[1..])
  }

  lemma {:induction false} UptoKeeps(t: Text)
    ensures 0 !in Upto(t) && (0 !in t ==> Upto(t) == t)
  {
    if t != [] {
      UptoKeeps(t[1..]);
      assert t == [t[0]] + t[1..];
    }
  }
}
