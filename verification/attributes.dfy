/** The ray-tracing input attribute map and its canonical serialisation
    (`KernelCache::serialize_input_attributes` with `VariablesMapSerialize2`):
    the entries are collected into a `BTreeMap` ordered by name and written by
    `serde_json` as a compact object from each name to
    `{"size":..,"offset":..,"default_value":[..]}`. */
module Attributes {
  import opened Bytes
  import opened Results
  import opened Json
  import opened LexOrder
  import opened Utf8

  /** `hip_common::raytracing::Variable`. */
  datatype Variable = Variable(size: u32, offset: u32, defaultValue: bytes)

  /** One entry of the attribute map: a C-string name and its variable. */
  datatype Attribute = Attribute(name: CStrBytes, variable: Variable)

  /** A hash map's keys are distinct; its iteration order is arbitrary, so
      the model takes that order as the sequence itself. */
  predicate UniqueNames(m: seq<Attribute>) {
    forall i, j :: 0 <= i < j < |m| ==> m[i].name != m[j].name
  }

  /** `to_str().unwrap()` panics on a name that is not UTF-8. */
  predicate NamesAreUtf8(m: seq<Attribute>) {
    forall i :: 0 <= i < |m| ==> ValidUtf8(m[i].name)
  }

  predicate Ascending(m: seq<Attribute>) {
    forall i, j :: 0 <= i < j < |m| ==> Less(m[i].name, m[j].name)
  }

  lemma AscendingCons(e: Attribute, s: seq<Attribute>)
    requires Ascending(s)
    requires forall x | x in s :: Less(e.name, x.name)
    ensures Ascending([e] + s)
  {
    forall i, j | 0 <= i < j < |[e] + s|
      ensures Less(([e] + s)[i].name, ([e] + s)[j].name)
    {
      if i == 0 {
        assert ([e] + s)[j] == s[j - 1];
      } else {
        assert ([e] + s)[i] == s[i - 1] && ([e] + s)[j] == s[j - 1];
      }
    }
  }

  /** One `BTreeMap::insert` of a new key into the ordered entries. */
  function Insert(e: Attribute, sorted: seq<Attribute>): (r: seq<Attribute>)
    requires Ascending(sorted)
    requires forall x | x in sorted :: x.name != e.name
    ensures Ascending(r)
    ensures forall x :: x in r <==> x == e || x in sorted
    ensures |r| == |sorted| + 1
    decreases |sorted|
  {
    if |sorted| == 0 then [e]
    else if Less(e.name, sorted[0].name) then
      assert forall x | x in sorted :: Less(e.name, x.name) by {
        forall x | x in sorted ensures Less(e.name, x.name) {
          var j :| 0 <= j < |sorted| && sorted[j] == x;
          if j > 0 {
            LessTransitive(e.name, sorted[0].name, x.name);
          }
        }
      }
      AscendingCons(e, sorted);
      [e] + sorted
    else
      LessConnected(e.name, sorted[0].name);
      var tail := Insert(e, sorted[1..]);
      assert forall x | x in sorted[1..] :: Less(sorted[0].name, x.name) by {
        forall x | x in sorted[1..] ensures Less(sorted[0].name, x.name) {
          var j :| 0 <= j < |sorted[1..]| && sorted[1..][j] == x;
          assert sorted[j + 1] == x;
        }
      }
      AscendingCons(sorted[0], tail);
      assert sorted == [sorted[0]] + sorted[1..];
      [sorted[0]] + tail
  }

  /** The entries before the last keep distinct names, none of them the
      last entry's, and with the last they are all of `m`. */
  lemma SplitLast(m: seq<Attribute>)
    requires UniqueNames(m) && |m| > 0
    ensures UniqueNames(m[..|m| - 1])
    ensures forall x | x in m[..|m| - 1] :: x.name != m[|m| - 1].name
    ensures forall x :: x in m <==> x in m[..|m| - 1] || x == m[|m| - 1]
  {
    assert m == m[..|m| - 1] + [m[|m| - 1]];
  }

  /** `attributes.iter().collect::<BTreeMap<_, _>>()`: insert every entry in
      iteration order. The result lists each entry once, by ascending name. */
  function Collect(m: seq<Attribute>): (r: seq<Attribute>)
    requires UniqueNames(m)
    ensures Ascending(r)
    ensures forall x :: x in r <==> x in m
    ensures |r| == |m|
  {
    if |m| == 0 then []
    else
      SplitLast(m);
      Insert(m[|m| - 1], Collect(m[..|m| - 1]))
  }

  lemma FirstIsMember(s: seq<Attribute>)
    ensures |s| > 0 ==> s[0] in s
  {
  }

  lemma HeadsEqual(a: seq<Attribute>, b: seq<Attribute>)
    requires Ascending(a) && Ascending(b) && |a| > 0 && |b| > 0
    requires forall x :: x in a <==> x in b
    ensures a[0] == b[0]
  {
    assert a[0] in a && b[0] in b;
    var i :| 0 <= i < |b| && b[i] == a[0];
    var j :| 0 <= j < |a| && a[j] == b[0];
    if i > 0 && j > 0 {
      LessAsymmetric(b[0].name, a[0].name);
      assert false;
    }
    if i > 0 {
      LessIrreflexive(b[0].name);
      assert false;
    }
    if j > 0 {
      LessIrreflexive(a[0].name);
      assert false;
    }
  }

  /** In an ascending list the head is not repeated in the tail. */
  lemma NotInTail(a: seq<Attribute>, x: Attribute)
    requires Ascending(a) && |a| > 0 && x in a[1..]
    ensures x != a[0] && x in a
  {
    var k :| 0 <= k < |a[1..]| && a[1..][k] == x;
    assert a[k + 1] == x;
    LessIrreflexive(x.name);
  }

  lemma InTail(a: seq<Attribute>, x: Attribute)
    requires |a| > 0 && x in a && x != a[0]
    ensures x in a[1..]
  {
    var l :| 0 <= l < |a| && a[l] == x;
    assert a[1..][l - 1] == x;
  }

  lemma TailsSameMembers(a: seq<Attribute>, b: seq<Attribute>)
    requires Ascending(a) && Ascending(b) && |a| > 0 && |b| > 0 && a[0] == b[0]
    requires forall x :: x in a <==> x in b
    ensures forall x :: x in a[1..] <==> x in b[1..]
  {
    forall x ensures x in a[1..] <==> x in b[1..] {
      if x in a[1..] {
        NotInTail(a, x);
        InTail(b, x);
      }
      if x in b[1..] {
        NotInTail(b, x);
        InTail(a, x);
      }
    }
  }

  lemma ConsEqual(a: seq<Attribute>, b: seq<Attribute>)
    requires |a| > 0 && |b| > 0 && a[0] == b[0] && a[1..] == b[1..]
    ensures a == b
  {
    assert a == [a[0]] + a[1..] && b == [b[0]] + b[1..];
  }

  /** Two ascending entry lists with the same entries are the same list. */
  lemma {:induction false} AscendingUnique(a: seq<Attribute>, b: seq<Attribute>)
    requires Ascending(a) && Ascending(b)
    requires forall x :: x in a <==> x in b
    ensures a == b
    decreases |a|
  {
    if |a| == 0 {
      if |b| > 0 {
        FirstIsMember(b);
        assert false;
      }
    } else if |b| == 0 {
      FirstIsMember(a);
      assert false;
    } else {
      HeadsEqual(a, b);
      TailsSameMembers(a, b);
      AscendingUnique(a[1..], b[1..]);
      ConsEqual(a, b);
    }
  }

  const LBRACE: byte := 0x7B
  const RBRACE: byte := 0x7D
  const RBRACKET: byte := 0x5D
  const COMMA: byte := 0x2C

  function SizeOpen(): bytes { Ascii("{\"size\":") }
  function OffsetSep(): bytes { Ascii(",\"offset\":") }
  function DefaultSep(): bytes { Ascii(",\"default_value\":[") }

  /** The elements of a non-empty `default_value` array and its closing `]`. */
  function RenderByteItems(dv: bytes): bytes
    requires |dv| > 0
  {
    if |dv| == 1 then Decimal(dv[0]) + [RBRACKET]
    else Decimal(dv[0]) + [COMMA] + RenderByteItems(dv[1..])
  }

  /** The text of `default_value` after its opening `[`. */
  function RenderByteArray(dv: bytes): bytes {
    if |dv| == 0 then [RBRACKET] else RenderByteItems(dv)
  }

  function RenderVariable(v: Variable): bytes {
    SizeOpen() + Decimal(v.size) + OffsetSep() + Decimal(v.offset) + DefaultSep()
      + RenderByteArray(v.defaultValue) + [RBRACE]
  }

  function RenderMember(a: Attribute): bytes {
    [QUOTE] + Escape(a.name) + [QUOTE, COLON] + RenderVariable(a.variable)
  }

  /** The members of a non-empty object and its closing `}`. */
  function RenderMemberItems(s: seq<Attribute>): bytes
    requires |s| > 0
  {
    if |s| == 1 then RenderMember(s[0]) + [RBRACE]
    else RenderMember(s[0]) + [COMMA] + RenderMemberItems(s[1..])
  }

  function RenderObject(s: seq<Attribute>): bytes {
    if |s| == 0 then [LBRACE, RBRACE] else [LBRACE] + RenderMemberItems(s)
  }

  /** `serialize_input_attributes`: the JSON text of the name-ordered map.
      With UTF-8 names serde_json cannot fail on this shape, so the result
      is always a string. */
  function SerializeInputAttributes(m: seq<Attribute>): (r: bytes)
    requires UniqueNames(m) && NamesAreUtf8(m)
    ensures ParseObject(r) == Some(Collect(m))
  {
    ParseObjectOfRendered(Collect(m));
    RenderObject(Collect(m))
  }

  /** The attribute map serialises to the same text exactly when it holds
      the same entries, whatever the iteration order. */
  lemma SerializationIsCanonical(a: seq<Attribute>, b: seq<Attribute>)
    requires UniqueNames(a) && NamesAreUtf8(a)
    requires UniqueNames(b) && NamesAreUtf8(b)
    ensures SerializeInputAttributes(a) == SerializeInputAttributes(b) <==> (forall x :: x in a <==> x in b)
  {
    if forall x :: x in a <==> x in b {
      AscendingUnique(Collect(a), Collect(b));
    }
  }

  // Reading the canonical text back.

  function ParseByteItems(s: bytes): (r: Option<(bytes, bytes)>)
    ensures r.Some? ==> |r.value.1| < |s|
    decreases |s|
  {
    match ParseNat(s)
    case None => None
    case Some((n, t)) =>
      if n >= 0x100 || |t| == 0 then None
      else if t[0] == RBRACKET then Some(([n as byte], t[1..]))
      else if t[0] == COMMA then
        match ParseByteItems(t[1..])
        case None => None
        case Some((items, rest)) => Some(([n as byte] + items, rest))
      else None
  }

  function ParseByteArray(s: bytes): (r: Option<(bytes, bytes)>)
    ensures r.Some? ==> |r.value.1| < |s|
  {
    if |s| > 0 && s[0] == RBRACKET then Some(([], s[1..])) else ParseByteItems(s)
  }

  function ParseVariable(s: bytes): (r: Option<(Variable, bytes)>)
    ensures r.Some? ==> |r.value.1| < |s|
  {
    match Expect(SizeOpen(), s)
    case None => None
    case Some(s1) =>
      match ParseNat(s1)
      case None => None
      case Some((size, s2)) =>
        if size >= 0x1_0000_0000 then None
        else match Expect(OffsetSep(), s2)
        case None => None
        case Some(s3) =>
          match ParseNat(s3)
          case None => None
          case Some((offset, s4)) =>
            if offset >= 0x1_0000_0000 then None
            else match Expect(DefaultSep(), s4)
            case None => None
            case Some(s5) =>
              match ParseByteArray(s5)
              case None => None
              case Some((dv, s6)) =>
                match Expect([RBRACE], s6)
                case None => None
                case Some(s7) => Some((Variable(size, offset, dv), s7))
  }

  function ParseMember(s: bytes): (r: Option<(Attribute, bytes)>)
    ensures r.Some? ==> |r.value.1| < |s|
  {
    match Expect([QUOTE], s)
    case None => None
    case Some(s1) =>
      match ParseStringBody(s1)
      case None => None
      case Some((name, s2)) =>
        if 0 in name then None
        else match Expect([COLON], s2)
        case None => None
        case Some(s3) =>
          match ParseVariable(s3)
          case None => None
          case Some((v, s4)) => Some((Attribute(name, v), s4))
  }

  function ParseMemberItems(s: bytes): (r: Option<(seq<Attribute>, bytes)>)
    decreases |s|
  {
    match ParseMember(s)
    case None => None
    case Some((a, t)) =>
      if |t| == 0 then None
      else if t[0] == RBRACE then Some(([a], t[1..]))
      else if t[0] == COMMA then
        match ParseMemberItems(t[1..])
        case None => None
        case Some((items, rest)) => Some(([a] + items, rest))
      else None
  }

  /** Reads a whole serialised attribute map; trailing text is an error. */
  function ParseObject(s: bytes): Option<seq<Attribute>> {
    if |s| < 2 || s[0] != LBRACE then None
    else if s == [LBRACE, RBRACE] then Some([])
    else
      match ParseMemberItems(s[1..])
      case Some((items, rest)) => if |rest| == 0 then Some(items) else None
      case None => None
  }

  lemma ParseLastByte(n: byte, rest: bytes)
    ensures ParseByteItems(Decimal(n) + ([RBRACKET] + rest)) == Some(([n], rest))
  {
    ParseNatOfDecimal(n, [RBRACKET] + rest);
    assert ([RBRACKET] + rest)[1..] == rest;
  }

  lemma ParseNextByte(n: byte, tail: bytes, items: bytes, rest: bytes)
    requires ParseByteItems(tail) == Some((items, rest))
    ensures ParseByteItems(Decimal(n) + ([COMMA] + tail)) == Some(([n] + items, rest))
  {
    ParseNatOfDecimal(n, [COMMA] + tail);
    assert ([COMMA] + tail)[1..] == tail;
  }

  lemma SeqAssoc(a: bytes, b: bytes, c: bytes)
    ensures a + b + c == a + (b + c)
  {
  }

  lemma RenderByteItemsWithRest(dv: bytes, rest: bytes)
    requires |dv| > 0
    ensures |dv| == 1 ==> RenderByteItems(dv) + rest == Decimal(dv[0]) + ([RBRACKET] + rest)
    ensures |dv| > 1 ==> RenderByteItems(dv) + rest == Decimal(dv[0]) + ([COMMA] + (RenderByteItems(dv[1..]) + rest))
  {
    var d := Decimal(dv[0]);
    if |dv| == 1 {
      assert RenderByteItems(dv) == d + [RBRACKET];
      SeqAssoc(d, [RBRACKET], rest);
    } else {
      var tail := RenderByteItems(dv[1..]);
      assert RenderByteItems(dv) == d + [COMMA] + tail;
      SeqAssoc(d, [COMMA], tail);
      SeqAssoc(d, [COMMA] + tail, rest);
      SeqAssoc([COMMA], tail, rest);
    }
  }

  lemma {:induction false} ParseByteItemsOfRendered(dv: bytes, rest: bytes)
    requires |dv| > 0
    ensures ParseByteItems(RenderByteItems(dv) + rest) == Some((dv, rest))
  {
    RenderByteItemsWithRest(dv, rest);
    if |dv| == 1 {
      ParseLastByte(dv[0], rest);
      SingleResult(dv, rest);
    } else {
      ParseByteItemsOfRendered(dv[1..], rest);
      ParseNextByte(dv[0], RenderByteItems(dv[1..]) + rest, dv[1..], rest);
      ConsResult(dv, rest);
    }
  }

  lemma ParseByteArrayOfRendered(dv: bytes, rest: bytes)
    ensures ParseByteArray(RenderByteArray(dv) + rest) == Some((dv, rest))
  {
    if |dv| == 0 {
      assert (RenderByteArray(dv) + rest)[1..] == rest;
    } else {
      ParseByteItemsOfRendered(dv, rest);
      assert Decimal(dv[0])[0] != RBRACKET;
    }
  }

  lemma RenderVariableWithRest(v: Variable, rest: bytes)
    ensures RenderVariable(v) + rest
         == SizeOpen() + (Decimal(v.size) + (OffsetSep() + (Decimal(v.offset) + (DefaultSep()
              + (RenderByteArray(v.defaultValue) + ([RBRACE] + rest))))))
  {
  }

  lemma ParseVariableOfRendered(v: Variable, rest: bytes)
    ensures ParseVariable(RenderVariable(v) + rest) == Some((v, rest))
  {
    var s6 := [RBRACE] + rest;
    var s5 := RenderByteArray(v.defaultValue) + s6;
    var s4 := DefaultSep() + s5;
    var s3 := Decimal(v.offset) + s4;
    var s2 := OffsetSep() + s3;
    var s1 := Decimal(v.size) + s2;
    RenderVariableWithRest(v, rest);
    ExpectLiteral(SizeOpen(), s1);
    assert OffsetSep()[0] == COMMA;
    ParseNatOfDecimal(v.size, s2);
    ExpectLiteral(OffsetSep(), s3);
    assert DefaultSep()[0] == COMMA;
    ParseNatOfDecimal(v.offset, s4);
    ExpectLiteral(DefaultSep(), s5);
    ParseByteArrayOfRendered(v.defaultValue, s6);
    ExpectLiteral([RBRACE], rest);
  }

  lemma RenderMemberWithRest(a: Attribute, rest: bytes)
    ensures RenderMember(a) + rest
         == [QUOTE] + (Escape(a.name) + [QUOTE] + ([COLON] + (RenderVariable(a.variable) + rest)))
  {
    MemberText(Escape(a.name), RenderVariable(a.variable), rest);
  }

  lemma MemberText(e: bytes, v: bytes, rest: bytes)
    ensures [QUOTE] + e + [QUOTE, COLON] + v + rest == [QUOTE] + (e + [QUOTE] + ([COLON] + (v + rest)))
  {
  }

  /** `ParseMember` once each of its steps is known. */
  lemma ParseMemberSteps(s: bytes, s1: bytes, name: bytes, s2: bytes, s3: bytes, v: Variable, s4: bytes)
    requires Expect([QUOTE], s) == Some(s1)
    requires ParseStringBody(s1) == Some((name, s2)) && 0 !in name
    requires Expect([COLON], s2) == Some(s3)
    requires ParseVariable(s3) == Some((v, s4))
    ensures ParseMember(s) == Some((Attribute(name, v), s4))
  {
  }

  lemma ParseMemberOfRendered(a: Attribute, rest: bytes)
    ensures ParseMember(RenderMember(a) + rest) == Some((a, rest))
  {
    var s3 := RenderVariable(a.variable) + rest;
    var s2 := [COLON] + s3;
    var s1 := Escape(a.name) + [QUOTE] + s2;
    RenderMemberWithRest(a, rest);
    ExpectLiteral([QUOTE], s1);
    ParseEscaped(a.name, s2);
    ExpectLiteral([COLON], s3);
    ParseVariableOfRendered(a.variable, rest);
    ParseMemberSteps(RenderMember(a) + rest, s1, a.name, s2, s3, a.variable, rest);
  }

  lemma MemberItemsLast(s: bytes, a: Attribute, t: bytes)
    requires ParseMember(s) == Some((a, t)) && |t| > 0 && t[0] == RBRACE
    ensures ParseMemberItems(s) == Some(([a], t[1..]))
  {
  }

  lemma MemberItemsNext(s: bytes, a: Attribute, t: bytes, items: seq<Attribute>, rest: bytes)
    requires ParseMember(s) == Some((a, t)) && |t| > 0 && t[0] == COMMA
    requires ParseMemberItems(t[1..]) == Some((items, rest))
    ensures ParseMemberItems(s) == Some(([a] + items, rest))
  {
  }

  lemma ParseLastMember(a: Attribute, rest: bytes)
    ensures ParseMemberItems(RenderMember(a) + ([RBRACE] + rest)) == Some(([a], rest))
  {
    ParseMemberOfRendered(a, [RBRACE] + rest);
    assert ([RBRACE] + rest)[1..] == rest;
    MemberItemsLast(RenderMember(a) + ([RBRACE] + rest), a, [RBRACE] + rest);
  }

  lemma ParseNextMember(a: Attribute, tail: bytes, items: seq<Attribute>, rest: bytes)
    requires ParseMemberItems(tail) == Some((items, rest))
    ensures ParseMemberItems(RenderMember(a) + ([COMMA] + tail)) == Some(([a] + items, rest))
  {
    ParseMemberOfRendered(a, [COMMA] + tail);
    assert ([COMMA] + tail)[1..] == tail;
    MemberItemsNext(RenderMember(a) + ([COMMA] + tail), a, [COMMA] + tail, items, rest);
  }

  lemma RenderMemberItemsWithRest(s: seq<Attribute>, rest: bytes)
    requires |s| > 0
    ensures |s| == 1 ==> RenderMemberItems(s) + rest == RenderMember(s[0]) + ([RBRACE] + rest)
    ensures |s| > 1 ==> RenderMemberItems(s) + rest == RenderMember(s[0]) + ([COMMA] + (RenderMemberItems(s[1..]) + rest))
  {
    var m := RenderMember(s[0]);
    if |s| == 1 {
      assert RenderMemberItems(s) == m + [RBRACE];
      SeqAssoc(m, [RBRACE], rest);
    } else {
      var tail := RenderMemberItems(s[1..]);
      assert RenderMemberItems(s) == m + [COMMA] + tail;
      SeqAssoc(m, [COMMA], tail);
      SeqAssoc(m, [COMMA] + tail, rest);
      SeqAssoc([COMMA], tail, rest);
    }
  }

  lemma ParseOneMemberItem(s: seq<Attribute>, rest: bytes)
    requires |s| == 1
    ensures ParseMemberItems(RenderMemberItems(s) + rest) == Some((s, rest))
  {
    RenderMemberItemsWithRest(s, rest);
    ParseLastMember(s[0], rest);
    SingleResult(s, rest);
  }

  lemma SingleResult<T>(s: seq<T>, rest: bytes)
    requires |s| == 1
    ensures Some(([s[0]], rest)) == Some((s, rest))
  {
    assert [s[0]] == s;
  }

  lemma ConsResult<T>(s: seq<T>, rest: bytes)
    requires |s| > 0
    ensures Some(([s[0]] + s[1..], rest)) == Some((s, rest))
  {
    assert [s[0]] + s[1..] == s;
  }

  lemma ParseMoreMemberItems(s: seq<Attribute>, rest: bytes)
    requires |s| > 1
    requires ParseMemberItems(RenderMemberItems(s[1..]) + rest) == Some((s[1..], rest))
    ensures ParseMemberItems(RenderMemberItems(s) + rest) == Some(([s[0]] + s[1..], rest))
  {
    RenderMemberItemsWithRest(s, rest);
    ParseNextMember(s[0], RenderMemberItems(s[1..]) + rest, s[1..], rest);
  }

  lemma {:induction false} ParseMemberItemsOfRendered(s: seq<Attribute>, rest: bytes)
    requires |s| > 0
    ensures ParseMemberItems(RenderMemberItems(s) + rest) == Some((s, rest))
  {
    if |s| == 1 {
      ParseOneMemberItem(s, rest);
    } else {
      ParseMemberItemsOfRendered(s[1..], rest);
      ParseMoreMemberItems(s, rest);
      ConsResult(s, rest);
    }
  }

  /** The canonical text decodes back to the ordered entries it was made
      from. */
  lemma ParseObjectOfRendered(s: seq<Attribute>)
    ensures ParseObject(RenderObject(s)) == Some(s)
  {
    if |s| > 0 {
      ParseMemberItemsOfRendered(s, []);
      var items := RenderMemberItems(s);
      assert RenderObject(s)[1..] == items + [];
      assert RenderMember(s[0])[0] == QUOTE;
      assert RenderObject(s) != [LBRACE, RBRACE];
    }
  }
}
