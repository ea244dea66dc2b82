/** canonicalJson of artifact-receipt-journal.ts: injective and independent of key order. */
module CanonicalJson {
  import opened Hashing
  import opened Json
  import opened Utf8
  import opened Utf16

  // ----- key order: by UTF-16 code units -----

  predicate Less(a: Units, b: Units) {
    if b == [] then false
    else if a == [] then true
    else a[0] < b[0] || (a[0] == b[0] && Less(a[1..], b[1..]))
  }

  lemma {:induction false} LessTotal(a: Units, b: Units)
    ensures a == b || Less(a, b) || Less(b, a)
    ensures !(Less(a, b) && Less(b, a)) && !Less(a, a)
  {
    if a != [] && b != [] {
      LessTotal(a[1..], b[1..]);
      assert a == [a[0]] + a[1..] && b == [b[0]] + b[1..];
      LessIrreflexive(a);
    } else {
      LessIrreflexive(a);
    }
  }

  lemma {:induction false} LessIrreflexive(a: Units)
    ensures !Less(a, a)
  {
    if a != [] {
      LessIrreflexive(a[1..]);
    }
  }

  lemma {:induction false} LessTransitive(a: Units, b: Units, c: Units)
    requires Less(a, b) && Less(b, c)
    ensures Less(a, c)
  {
    if a != [] && b != [] && c != [] && a[0] == b[0] == c[0] {
      LessTransitive(a[1..], b[1..], c[1..]);
    }
  }

  // ----- accepted values -----

  /** What assertCanonicalJsonGraph leaves: finite numbers, and objects with distinct keys, none of them "toJSON". */
  ghost predicate Accepted(v: Value)
    decreases v
  {
    match v
    case Num(text) => NumberText(text)
    case Arr(items) => forall i | 0 <= i < |items| :: Accepted(items[i])
    case Obj(ms) => DistinctKeys(ms) && forall i | 0 <= i < |ms| :: ms[i].key != TO_JSON && Accepted(ms[i].value)
    case _ => true
  }

  const TO_JSON: Units := [0x74, 0x6F, 0x4A, 0x53, 0x4F, 0x4E]

  ghost predicate DistinctKeys(ms: seq<Member>) {
    forall i, j | 0 <= i < j < |ms| :: ms[i].key != ms[j].key
  }

  /** Equality of values that ignores key order and keeps array order. */
  ghost predicate Same(v: Value, w: Value)
    decreases v
  {
    match (v, w)
    case (Arr(a), Arr(b)) => |a| == |b| && forall i | 0 <= i < |a| :: Same(a[i], b[i])
    case (Obj(a), Obj(b)) =>
      && (forall i | 0 <= i < |a| :: HasKey(b, a[i].key))
      && (forall j | 0 <= j < |b| :: HasKey(a, b[j].key))
      && (forall i, j | 0 <= i < |a| && 0 <= j < |b| && a[i].key == b[j].key :: Same(a[i].value, b[j].value))
    case _ => v == w
  }

  ghost predicate HasKey(ms: seq<Member>, key: Units) {
    exists i :: 0 <= i < |ms| && ms[i].key == key
  }

  // ----- canonicalJson -----

  function Insert(m: Member, sorted: seq<Member>): (r: seq<Member>)
    ensures |r| == |sorted| + 1
  {
    if sorted == [] then [m]
    else if Less(sorted[0].key, m.key) then [sorted[0]] + Insert(m, sorted[1..])
    else [m] + sorted
  }

  function SortByKey(ms: seq<Member>): (r: seq<Member>)
    ensures |r| == |ms|
  {
    if ms == [] then [] else Insert(ms[0], SortByKey(ms[1..]))
  }

  /** The value with the members of every object in key order. */
  function Ordered(v: Value): Value
    decreases v
  {
    match v
    case Arr(items) => Arr(seq(|items|, i requires 0 <= i < |items| => Ordered(items[i])))
    case Obj(ms) => Obj(SortByKey(seq(|ms|, i requires 0 <= i < |ms| => Member(ms[i].key, Ordered(ms[i].value)))))
    case _ => v
  }

  /** join(',') */
  function Join(texts: seq<Units>): Units {
    if texts == [] then []
    else if |texts| == 1 then texts[0]
    else texts[0] + ([COMMA] + Join(texts[1..]))
  }

  /** canonicalJson: arrays keep their order, objects print their members by sorted key. */
  function Canonical(v: Value): Units
    decreases v
  {
    match v
    case Arr(items) => [LBRACKET] + Join(seq(|items|, i requires 0 <= i < |items| => Canonical(items[i]))) + [RBRACKET]
    case Obj(ms) =>
      var sorted := SortByKey(ms);
      SortedMembers(ms);
      var texts := seq(|ms|, i requires 0 <= i < |ms| =>
        var m := sorted[i]; assert m in ms; Quote(m.key) + ([COLON] + Canonical(m.value)));
      [LBRACE] + Join(texts) + [RBRACE]
    case _ => Stringify(v)
  }

  lemma SortedMembers(ms: seq<Member>)
    ensures forall i | 0 <= i < |ms| :: SortByKey(ms)[i] in ms
  {
    forall i | 0 <= i < |ms|
      ensures SortByKey(ms)[i] in ms
    {
      SortElements(ms, SortByKey(ms)[i]);
    }
  }

  // ----- sorting facts -----

  ghost predicate Ascending(ms: seq<Member>) {
    forall i, j | 0 <= i < j < |ms| :: Less(ms[i].key, ms[j].key)
  }

  lemma {:induction false} InsertElements(m: Member, sorted: seq<Member>, x: Member)
    ensures x in Insert(m, sorted) <==> x == m || x in sorted
  {
    if sorted != [] && Less(sorted[0].key, m.key) {
      InsertElements(m, sorted[1..], x);
      assert sorted == [sorted[0]] + sorted[1..];
    }
  }

  lemma {:induction false} InsertAscending(m: Member, sorted: seq<Member>)
    requires Ascending(sorted) && forall i | 0 <= i < |sorted| :: sorted[i].key != m.key
    ensures Ascending(Insert(m, sorted))
  {
    if sorted != [] {
      var r := Insert(m, sorted);
      LessTotal(sorted[0].key, m.key);
      if Less(sorted[0].key, m.key) {
        InsertAscending(m, sorted[1..]);
        forall j | 0 < j < |r| ensures Less(r[0].key, r[j].key) {
          InsertElements(m, sorted[1..], r[j]);
          assert r[j] == r[1..][j - 1];
        }
        assert r[1..] == Insert(m, sorted[1..]);
      } else {
        forall j | 0 < j < |r| ensures Less(m.key, r[j].key) {
          if j > 1 { LessTransitive(m.key, sorted[0].key, sorted[j - 1].key); }
        }
      }
    }
  }

  lemma {:induction false} SortElements(ms: seq<Member>, x: Member)
    ensures x in SortByKey(ms) <==> x in ms
  {
    if ms != [] {
      SortElements(ms[1..], x);
      InsertElements(ms[0], SortByKey(ms[1..]), x);
      assert ms == [ms[0]] + ms[1..];
    }
  }

  lemma {:induction false} SortAscending(ms: seq<Member>)
    requires DistinctKeys(ms)
    ensures Ascending(SortByKey(ms))
  {
    if ms != [] {
      SortAscending(ms[1..]);
      var rest := SortByKey(ms[1..]);
      forall i | 0 <= i < |rest| ensures rest[i].key != ms[0].key {
        SortElements(ms[1..], rest[i]);
        var k :| 0 <= k < |ms[1..]| && ms[1..][k] == rest[i];
        assert ms[k + 1].key != ms[0].key;
      }
      InsertAscending(ms[0], rest);
    }
  }

  /** An ascending member list is determined by its elements. */
  lemma {:induction false} AscendingUnique(a: seq<Member>, b: seq<Member>)
    requires Ascending(a) && Ascending(b) && forall x :: x in a <==> x in b
    ensures a == b
  {
    assert a != [] ==> a[0] in a;
    assert b != [] ==> b[0] in b;
    if a != [] {
      LeastIsFirst(a, b);
      forall x ensures x in a[1..] <==> x in b[1..] {
        TailElements(a, x);
        TailElements(b, x);
      }
      AscendingUnique(a[1..], b[1..]);
      assert a == [a[0]] + a[1..] && b == [b[0]] + b[1..];
    }
  }

  lemma LeastIsFirst(a: seq<Member>, b: seq<Member>)
    requires a != [] && b != [] && Ascending(a) && Ascending(b) && a[0] in b && b[0] in a
    ensures a[0] == b[0]
  {
    var i :| 0 <= i < |b| && b[i] == a[0];
    var j :| 0 <= j < |a| && a[j] == b[0];
    LessTotal(a[0].key, b[0].key);
  }

  lemma TailElements(a: seq<Member>, x: Member)
    requires a != [] && Ascending(a)
    ensures x in a[1..] <==> x in a && x != a[0]
  {
    assert a == [a[0]] + a[1..];
    if x in a[1..] {
      var k :| 0 <= k < |a[1..]| && a[1..][k] == x;
      assert Less(a[0].key, a[k + 1].key);
      LessIrreflexive(x.key);
    }
  }

  // ----- the theorem -----

  function Mapped(ms: seq<Member>): (r: seq<Member>)
    ensures |r| == |ms| && forall i | 0 <= i < |ms| :: r[i] == Member(ms[i].key, Ordered(ms[i].value))
  {
    seq(|ms|, i requires 0 <= i < |ms| => Member(ms[i].key, Ordered(ms[i].value)))
  }

  lemma OrderedObject(ms: seq<Member>)
    ensures Ordered(Obj(ms)) == Obj(SortByKey(Mapped(ms)))
  {
    assert Mapped(ms) == seq(|ms|, i requires 0 <= i < |ms| => Member(ms[i].key, Ordered(ms[i].value)));
  }

  lemma {:induction false} InsertMapped(m: Member, sorted: seq<Member>)
    ensures Mapped(Insert(m, sorted)) == Insert(Member(m.key, Ordered(m.value)), Mapped(sorted))
  {
    if sorted != [] && Less(sorted[0].key, m.key) {
      InsertMapped(m, sorted[1..]);
      assert Mapped(sorted)[1..] == Mapped(sorted[1..]);
    }
  }

  /** Sorting looks at keys alone, so it does not matter whether values are ordered before or after it. */
  lemma {:induction false} SortMapped(ms: seq<Member>)
    ensures Mapped(SortByKey(ms)) == SortByKey(Mapped(ms))
  {
    if ms != [] {
      SortMapped(ms[1..]);
      InsertMapped(ms[0], SortByKey(ms[1..]));
      assert Mapped(ms)[1..] == Mapped(ms[1..]);
    }
  }

  lemma {:induction false} JoinItems(texts: seq<Units>, items: seq<Value>)
    requires |texts| == |items| && forall i | 0 <= i < |items| :: texts[i] == Stringify(items[i])
    ensures Join(texts) == StringifyItems(items)
  {
    if items != [] {
      JoinItems(texts[1..], items[1..]);
    }
  }

  lemma {:induction false} JoinMembers(texts: seq<Units>, ms: seq<Member>)
    requires |texts| == |ms| && forall i | 0 <= i < |ms| :: texts[i] == StringifyMember(ms[i])
    ensures Join(texts) == StringifyMembers(ms)
  {
    if ms != [] {
      JoinMembers(texts[1..], ms[1..]);
    }
  }

  /** The recursion of canonicalJson is the plain serialisation of the value with its keys in order. */
  lemma {:induction false} CanonicalIsOrdered(v: Value)
    ensures Canonical(v) == Stringify(Ordered(v))
    decreases v
  {
    match v
    case Arr(items) =>
      forall i | 0 <= i < |items|
        ensures Canonical(items[i]) == Stringify(Ordered(items[i]))
      {
        CanonicalIsOrdered(items[i]);
      }
      JoinItems(seq(|items|, i requires 0 <= i < |items| => Canonical(items[i])), Ordered(v).items);
    case Obj(ms) =>
      var sorted := SortByKey(ms);
      SortedMembers(ms);
      OrderedObject(ms);
      SortMapped(ms);
      forall i | 0 <= i < |ms|
        ensures Canonical(sorted[i].value) == Stringify(Ordered(sorted[i].value))
      {
        assert sorted[i] in ms;
        CanonicalIsOrdered(sorted[i].value);
      }
      var texts := seq(|ms|, i requires 0 <= i < |ms| =>
        var m := sorted[i]; assert m in ms; Quote(m.key) + ([COLON] + Canonical(m.value)));
      JoinMembers(texts, Mapped(sorted));
    case _ =>
  }

  /** Equal apart from key order implies one ordered form. */
  lemma {:induction false} SameImpliesOrdered(v: Value, w: Value)
    requires Accepted(v) && Accepted(w) && Same(v, w)
    ensures Ordered(v) == Ordered(w)
    decreases v
  {
    match (v, w)
    case (Arr(a), Arr(b)) =>
      forall i | 0 <= i < |a| ensures Ordered(a[i]) == Ordered(b[i]) {
        SameImpliesOrdered(a[i], b[i]);
      }
    case (Obj(a), Obj(b)) =>
      forall i, j | 0 <= i < |a| && 0 <= j < |b| && a[i].key == b[j].key
        ensures Ordered(a[i].value) == Ordered(b[j].value)
      {
        SameImpliesOrdered(a[i].value, b[j].value);
      }
      SameElements(a, b);
      SortedEqual(a, b);
    case _ =>
  }

  lemma SameElements(a: seq<Member>, b: seq<Member>)
    requires (forall i | 0 <= i < |a| :: HasKey(b, a[i].key)) && (forall j | 0 <= j < |b| :: HasKey(a, b[j].key))
    requires forall i, j | 0 <= i < |a| && 0 <= j < |b| && a[i].key == b[j].key ::
      Ordered(a[i].value) == Ordered(b[j].value)
    ensures forall x :: x in Mapped(a) <==> x in Mapped(b)
  {
    forall x ensures x in Mapped(a) <==> x in Mapped(b) {
      if x in Mapped(a) {
        var i :| 0 <= i < |a| && Mapped(a)[i] == x;
        assert HasKey(b, a[i].key);
        var j :| 0 <= j < |b| && b[j].key == a[i].key;
        assert Mapped(b)[j] == x;
      }
      if x in Mapped(b) {
        var j :| 0 <= j < |b| && Mapped(b)[j] == x;
        assert HasKey(a, b[j].key);
        var i :| 0 <= i < |a| && a[i].key == b[j].key;
        assert Mapped(a)[i] == x;
      }
    }
  }

  lemma SortedEqual(a: seq<Member>, b: seq<Member>)
    requires DistinctKeys(a) && DistinctKeys(b) && forall x :: x in Mapped(a) <==> x in Mapped(b)
    ensures Ordered(Obj(a)) == Ordered(Obj(b))
  {
    var x, y := Mapped(a), Mapped(b);
    assert DistinctKeys(x) && DistinctKeys(y);
    SortAscending(x);
    SortAscending(y);
    forall m ensures m in SortByKey(x) <==> m in SortByKey(y) {
      SortElements(x, m);
      SortElements(y, m);
    }
    AscendingUnique(SortByKey(x), SortByKey(y));
    OrderedObject(a);
    OrderedObject(b);
  }

  /** One ordered form implies equal apart from key order. */
  lemma {:induction false} OrderedImpliesSame(v: Value, w: Value)
    requires Accepted(v) && Accepted(w) && Ordered(v) == Ordered(w)
    ensures Same(v, w)
    decreases v
  {
    match (v, w)
    case (Arr(a), Arr(b)) =>
      ArraysMatch(a, b);
      forall i | 0 <= i < |a| ensures Same(a[i], b[i]) {
        OrderedImpliesSame(a[i], b[i]);
      }
    case (Obj(a), Obj(b)) =>
      forall i | 0 <= i < |a| ensures HasKey(b, a[i].key) {
        var j := MatchingMember(a, b, i);
      }
      forall j | 0 <= j < |b| ensures HasKey(a, b[j].key) {
        var i := MatchingMember(b, a, j);
      }
      forall i, j | 0 <= i < |a| && 0 <= j < |b| && a[i].key == b[j].key ensures Same(a[i].value, b[j].value) {
        var k := MatchingMember(a, b, i);
        assert k == j;
        OrderedImpliesSame(a[i].value, b[j].value);
      }
    case _ =>
  }

  lemma ArraysMatch(a: seq<Value>, b: seq<Value>)
    requires Ordered(Arr(a)) == Ordered(Arr(b))
    ensures |a| == |b| && forall i | 0 <= i < |a| :: Ordered(a[i]) == Ordered(b[i])
  {
    var x, y := Ordered(Arr(a)).items, Ordered(Arr(b)).items;
    assert |x| == |a| && |y| == |b|;
    forall i | 0 <= i < |a| ensures Ordered(a[i]) == Ordered(b[i]) {
      assert x[i] == Ordered(a[i]) && y[i] == Ordered(b[i]);
    }
  }

  lemma MatchingMember(a: seq<Member>, b: seq<Member>, i: nat) returns (j: nat)
    requires i < |a| && Ordered(Obj(a)) == Ordered(Obj(b))
    ensures j < |b| && b[j].key == a[i].key && Ordered(b[j].value) == Ordered(a[i].value)
  {
    OrderedObject(a);
    OrderedObject(b);
    var x := Mapped(a)[i];
    SortElements(Mapped(a), x);
    SortElements(Mapped(b), x);
    j :| 0 <= j < |b| && Mapped(b)[j] == x;
  }

  lemma {:induction false} OrderedNumbers(v: Value)
    requires Accepted(v)
    ensures NumbersOk(Ordered(v))
    decreases v
  {
    match v
    case Arr(items) =>
      forall i | 0 <= i < |items| ensures NumbersOk(Ordered(items[i])) {
        OrderedNumbers(items[i]);
      }
    case Obj(ms) =>
      OrderedObject(ms);
      forall i | 0 <= i < |ms| ensures NumbersOk(Ordered(ms[i].value)) {
        OrderedNumbers(ms[i].value);
      }
      var r := SortByKey(Mapped(ms));
      forall k | 0 <= k < |r| ensures NumbersOk(r[k].value) {
        SortElements(Mapped(ms), r[k]);
      }
    case _ =>
  }

  /** Canonical text is equal exactly for values that are equal apart from key order. */
  lemma CanonicalIsExact(v: Value, w: Value)
    requires Accepted(v) && Accepted(w)
    ensures Canonical(v) == Canonical(w) <==> Same(v, w)
  {
    CanonicalIsOrdered(v);
    CanonicalIsOrdered(w);
    OrderedNumbers(v);
    OrderedNumbers(w);
    ParseStringify(Ordered(v));
    ParseStringify(Ordered(w));
    if Same(v, w) {
      SameImpliesOrdered(v, w);
    }
    if Ordered(v) == Ordered(w) {
      OrderedImpliesSame(v, w);
    }
  }

  // ----- receipt bytes -----

  lemma {:induction false} StringifyPaired(v: Value)
    requires NumbersOk(v)
    ensures WellPaired(Stringify(v))
    decreases v
  {
    match v
    case Num(text) => NumberIsAWord(text); PlainPaired(text);
    case Str(s) => QuotePaired(s);
    case Arr(items) => ItemsPaired(items); BracketPaired(LBRACKET, StringifyItems(items), RBRACKET);
    case Obj(ms) => MembersPaired(ms); BracketPaired(LBRACE, StringifyMembers(ms), RBRACE);
    case _ => PlainPaired(Stringify(v));
  }

  lemma {:induction false} ItemsPaired(items: seq<Value>)
    requires forall i | 0 <= i < |items| :: NumbersOk(items[i])
    ensures WellPaired(StringifyItems(items))
    decreases items
  {
    if items != [] {
      StringifyPaired(items[0]);
      ItemsPaired(items[1..]);
      SeparatedPaired(Stringify(items[0]), COMMA, StringifyItems(items[1..]));
    }
  }

  lemma {:induction false} MembersPaired(ms: seq<Member>)
    requires forall i | 0 <= i < |ms| :: NumbersOk(ms[i].value)
    ensures WellPaired(StringifyMembers(ms))
    decreases ms
  {
    if ms != [] {
      QuotePaired(ms[0].key);
      StringifyPaired(ms[0].value);
      SeparatedPaired(Quote(ms[0].key), COLON, Stringify(ms[0].value));
      MembersPaired(ms[1..]);
      SeparatedPaired(StringifyMember(ms[0]), COMMA, StringifyMembers(ms[1..]));
    }
  }

  /** TextEncoder on text without lone surrogates. */
  function CanonicalBytes(v: Value): Bytes { Encode(CodePoints(Canonical(v))) }

  /** Two accepted receipts have the same canonical bytes exactly when they are the same value,
      key order aside: no information is lost between the value and what is hashed. */
  lemma CanonicalBytesExact(v: Value, w: Value)
    requires Accepted(v) && Accepted(w)
    ensures CanonicalBytes(v) == CanonicalBytes(w) <==> Same(v, w)
  {
    CanonicalIsExact(v, w);
    CanonicalIsOrdered(v);
    CanonicalIsOrdered(w);
    OrderedNumbers(v);
    OrderedNumbers(w);
    StringifyPaired(Ordered(v));
    StringifyPaired(Ordered(w));
    PairedIsScalar(Canonical(v));
    PairedIsScalar(Canonical(w));
    DecodeEncode(CodePoints(Canonical(v)));
    DecodeEncode(CodePoints(Canonical(w)));
    UnitsOfCodePoints(Canonical(v));
    UnitsOfCodePoints(Canonical(w));
  }
}
