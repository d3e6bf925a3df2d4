/**
 What names and texts are (`src/table.rs`, `src/column.rs`): columns are found by name in any case of the
 ASCII letters, and the octets of a text are those of a sequence of characters.
 */
module Names {
  import opened Bytes
  import opened Wrappers
  import opened Columns
  import opened Tables

  // --- columns by name --------------------------------------------------------------------------------

  predicate CapitalAndSmall(a: byte, b: byte) {
    0x41 <= a <= 0x5A && b == a + 0x20
  }

  // Two names are the same if and only if they are, octet by octet, but for the case of letters.
  lemma SameButForCase(a: bytes, b: bytes)
    ensures SameName(a, b) <==>
      |a| == |b| && forall i :: 0 <= i < |a| ==>
        a[i] == b[i] || CapitalAndSmall(a[i], b[i]) || CapitalAndSmall(b[i], a[i])
  {
  }

  lemma {:induction false} FoundFrom(schema: Schema, name: Text, i: nat)
    requires i <= |schema.fields|
    ensures var r := schema.IndexFrom(name, i);
      if r.Some? then i <= r.value < |schema.fields| && SameName(schema.fields[r.value].name, name)
      else forall j :: i <= j < |schema.fields| ==> !SameName(schema.fields[j].name, name)
    decreases |schema.fields| - i
  {
    if i < |schema.fields| {
      FoundFrom(schema, name, i + 1);
    }
  }

  lemma SameThrough(a: bytes, b: bytes, c: bytes)
    requires SameName(a, b) && SameName(c, b)
    ensures SameName(a, c) && SameName(c, a)
  {
  }

  // In a valid schema each name stands for one column: it is found if and only if a column has it, and it
  // is that column.
  lemma FoundIff(schema: Schema, name: Text, i: nat)
    requires schema.Valid() && i < |schema.fields|
    ensures schema.IndexOf(name) == Some(i) <==> SameName(schema.fields[i].name, name)
    ensures schema.IndexOf(name) == None <==>
      forall j :: 0 <= j < |schema.fields| ==> !SameName(schema.fields[j].name, name)
  {
    FoundFrom(schema, name, 0);
    hide SameName;
    var r := schema.IndexOf(name);
    if SameName(schema.fields[i].name, name) {
      assert r.Some?;
      SameThrough(schema.fields[i].name, name, schema.fields[r.value].name);
    }
  }

  // --- values by type ---------------------------------------------------------------------------------

  // The type test lets exactly those values through that a column of that type can push.
  lemma AcceptedIffPushed(env: Env, c: Column, v: Value)
    requires v.Vector? ==> |v.v| < TWO64
    ensures Accepts(c.Type(), v) <==> c.Push(env, v).Ok?
  {
  }

  // --- characters -------------------------------------------------------------------------------------

  // A scalar value of Unicode: no surrogate.
  predicate Scalar(c: nat) {
    c < 0xD800 || 0xE000 <= c < 0x11_0000
  }

  // Its octets in UTF-8 (RFC 3629, section 3).
  function Octets(c: nat): (b: bytes)
    requires Scalar(c)
    ensures 1 <= |b| <= 4
  {
    if c < 0x80 then [c]
    else if c < 0x800 then [0xC0 + c / 0x40, 0x80 + c % 0x40]
    else if c < 0x1_0000 then [0xE0 + c / 0x1000, 0x80 + c / 0x40 % 0x40, 0x80 + c % 0x40]
    else [0xF0 + c / 0x4_0000, 0x80 + c / 0x1000 % 0x40, 0x80 + c / 0x40 % 0x40, 0x80 + c % 0x40]
  }

  predicate AllScalar(cs: seq<nat>) {
    forall i :: 0 <= i < |cs| ==> Scalar(cs[i])
  }

  function Encoded(cs: seq<nat>): bytes
    requires AllScalar(cs)
  {
    if cs == [] then [] else Octets(cs[0]) + Encoded(cs[1..])
  }

  lemma EncodedHead(c: nat, rest: bytes)
    requires Scalar(c)
    ensures CharLen(Octets(c) + rest) == |Octets(c)|
  {
    var b := Octets(c) + rest;
    if c < 0x80 {
      assert b[0] == c;
    } else if c < 0x800 {
      assert b[0] == 0xC0 + c / 0x40 && b[1] == 0x80 + c % 0x40;
    } else if c < 0x1_0000 {
      ThreeOctets(c, b);
    } else {
      FourOctets(c, b);
    }
  }

  lemma ThreeOctets(c: nat, b: bytes)
    requires Scalar(c) && 0x800 <= c < 0x1_0000 && |b| >= 3 && b[..3] == Octets(c)
    ensures CharLen(b) == 3
  {
    assert b[0] == b[..3][0] && b[1] == b[..3][1] && b[2] == b[..3][2];
    var high, mid := c / 0x1000, c / 0x40 % 0x40;
    assert c / 0x40 == high * 0x40 + mid;
    assert c == high * 0x1000 + mid * 0x40 + c % 0x40;
  }

  lemma FourOctets(c: nat, b: bytes)
    requires Scalar(c) && 0x1_0000 <= c && |b| >= 4 && b[..4] == Octets(c)
    ensures CharLen(b) == 4
  {
    assert b[0] == b[..4][0] && b[1] == b[..4][1] && b[2] == b[..4][2] && b[3] == b[..4][3];
    var high, next, mid := c / 0x4_0000, c / 0x1000 % 0x40, c / 0x40 % 0x40;
    assert c / 0x1000 == high * 0x40 + next;
    assert c / 0x40 == (high * 0x40 + next) * 0x40 + mid;
    assert c == high * 0x4_0000 + next * 0x1000 + mid * 0x40 + c % 0x40;
  }

  // The character that two, three or four octets make.
  function FromTwo(x: int, y: int): int {
    (x - 0xC0) * 0x40 + (y - 0x80)
  }

  function FromThree(x: int, y: int, z: int): int {
    ((x - 0xE0) * 0x40 + (y - 0x80)) * 0x40 + (z - 0x80)
  }

  function FromFour(x: int, y: int, z: int, w: int): int {
    (((x - 0xF0) * 0x40 + (y - 0x80)) * 0x40 + (z - 0x80)) * 0x40 + (w - 0x80)
  }

  lemma DecodesTwo(b: bytes)
    requires CharLen(b) == 2
    ensures var c := FromTwo(b[0], b[1]); c >= 0 && Scalar(c) && Octets(c) == [b[0], b[1]]
  {
    QuotientIs(FromTwo(b[0], b[1]), 0x40, b[0] - 0xC0);
  }

  lemma DecodesThree(b: bytes)
    requires CharLen(b) == 3
    ensures var c := FromThree(b[0], b[1], b[2]); c >= 0 && Scalar(c) && Octets(c) == [b[0], b[1], b[2]]
  {
    var x, y, z := b[0], b[1], b[2];
    assert 0xE0 <= x <= 0xEF && 0x80 <= y <= 0xBF && 0x80 <= z <= 0xBF;
    assert (x == 0xE0 ==> y >= 0xA0) && (x == 0xED ==> y <= 0x9F);
    ThreeDigits(x, y, z);
  }

  lemma ThreeDigits(x: int, y: int, z: int)
    requires 0xE0 <= x <= 0xEF && 0x80 <= y <= 0xBF && 0x80 <= z <= 0xBF
    ensures var c := FromThree(x, y, z);
      c / 0x1000 == x - 0xE0 && c / 0x40 % 0x40 == y - 0x80 && c % 0x40 == z - 0x80
  {
    var c, high := FromThree(x, y, z), (x - 0xE0) * 0x40 + (y - 0x80);
    QuotientIs(c, 0x40, high);
    QuotientIs(high, 0x40, x - 0xE0);
    QuotientIs(c, 0x1000, x - 0xE0);
  }

  lemma DecodesFour(b: bytes)
    requires CharLen(b) == 4
    ensures var c := FromFour(b[0], b[1], b[2], b[3]); c >= 0 && Scalar(c) && Octets(c) == [b[0], b[1], b[2], b[3]]
  {
    var x, y, z, w := b[0], b[1], b[2], b[3];
    assert 0xF0 <= x <= 0xF4 && 0x80 <= y <= 0xBF && 0x80 <= z <= 0xBF && 0x80 <= w <= 0xBF;
    assert (x == 0xF0 ==> y >= 0x90) && (x == 0xF4 ==> y <= 0x8F);
    FourDigits(x, y, z, w);
  }

  lemma FourDigits(x: int, y: int, z: int, w: int)
    requires 0xF0 <= x <= 0xF4 && 0x80 <= y <= 0xBF && 0x80 <= z <= 0xBF && 0x80 <= w <= 0xBF
    ensures var c := FromFour(x, y, z, w);
      && c / 0x4_0000 == x - 0xF0 && c / 0x1000 % 0x40 == y - 0x80
      && c / 0x40 % 0x40 == z - 0x80 && c % 0x40 == w - 0x80
  {
    var c, two := FromFour(x, y, z, w), (x - 0xF0) * 0x40 + (y - 0x80);
    var three := two * 0x40 + (z - 0x80);
    QuotientIs(c, 0x40, three);
    QuotientIs(three, 0x40, two);
    QuotientIs(two, 0x40, x - 0xF0);
    QuotientIs(c, 0x1000, two);
    QuotientIs(c, 0x4_0000, x - 0xF0);
  }

  lemma HeadDecodes(b: bytes) returns (c: nat)
    requires CharLen(b) > 0
    ensures Scalar(c) && Octets(c) == b[..CharLen(b)]
  {
    hide Scalar, Octets, FromTwo, FromThree, FromFour;
    if CharLen(b) == 1 {
      c := b[0];
      OneOctet(b[0]);
    } else if CharLen(b) == 2 {
      DecodesTwo(b);
      c := FromTwo(b[0], b[1]);
    } else if CharLen(b) == 3 {
      DecodesThree(b);
      c := FromThree(b[0], b[1], b[2]);
    } else {
      DecodesFour(b);
      c := FromFour(b[0], b[1], b[2], b[3]);
    }
  }

  lemma OneOctet(c: nat)
    requires c < 0x80
    ensures Scalar(c) && Octets(c) == [c]
  {
  }

  lemma {:induction false} EncodedIsText(cs: seq<nat>)
    requires AllScalar(cs)
    ensures Utf8(Encoded(cs))
  {
    if cs != [] {
      EncodedIsText(cs[1..]);
      EncodedHead(cs[0], Encoded(cs[1..]));
      assert Encoded(cs)[|Octets(cs[0])|..] == Encoded(cs[1..]);
    }
  }

  lemma FirstCharacter(b: bytes) returns (c: nat, rest: bytes)
    requires Utf8(b) && b != []
    ensures Scalar(c) && b == Octets(c) + rest && Utf8(rest) && |rest| < |b|
  {
    c := HeadDecodes(b);
    rest := b[CharLen(b)..];
    hide Octets, Scalar, CharLen;
  }

  lemma {:induction false} TextIsEncoded(b: bytes) returns (cs: seq<nat>)
    requires Utf8(b)
    ensures AllScalar(cs) && Encoded(cs) == b
    decreases |b|
  {
    if b == [] {
      cs := [];
    } else {
      hide Octets, Scalar, Encoded, AllScalar, Utf8;
      var c, rest := FirstCharacter(b);
      var tail := TextIsEncoded(rest);
      EncodedCons(c, tail);
      cs := [c] + tail;
    }
  }

  lemma EncodedCons(c: nat, rest: seq<nat>)
    requires Scalar(c) && AllScalar(rest)
    ensures AllScalar([c] + rest) && Encoded([c] + rest) == Octets(c) + Encoded(rest)
  {
    assert ([c] + rest)[1..] == rest;
  }

  // The octets that are taken for a text are those that encode some sequence of scalar values.
  lemma TextIff(b: bytes)
    ensures Utf8(b) <==> exists cs: seq<nat> :: AllScalar(cs) && Encoded(cs) == b
  {
    if Utf8(b) {
      var cs := TextIsEncoded(b);
    }
    forall cs: seq<nat> | AllScalar(cs) && Encoded(cs) == b ensures Utf8(b) {
      EncodedIsText(cs);
    }
  }
}
