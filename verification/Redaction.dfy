/** The redacted rendering of response bodies: redactForLog of e2e/helpers/appliance-fixture.ts. */
module Redaction {
  datatype Json =
    | Null
    | Bool(b: bool)
    | Number(n: int)
    | Text(s: string)
    | Array(items: seq<Json>)
    | Object(members: seq<Member>)

  datatype Member = Member(key: string, value: Json)

  const MAX_DEPTH: nat := 6
  const MAX_ITEMS: nat := 20
  const MAX_TEXT: nat := 200

  const REDACTED: Json := Text("[redacted]")
  const TOO_DEEP: Json := Text("[depth]")

  function Clip(s: string): string {
    if |s| > MAX_TEXT then s[..MAX_TEXT] + "…" else s
  }

  function Head<T>(s: seq<T>): seq<T> {
    if |s| > MAX_ITEMS then s[..MAX_ITEMS] else s
  }

  const PROTO: string := "__proto__"

  /** The members that reach the output: assigning to `__proto__` sets no member. */
  function Own(members: seq<Member>): (own: seq<Member>)
    ensures forall m :: m in own ==> m in members && m.key != PROTO
  {
    if members == [] then []
    else (if members[0].key == PROTO then [] else [members[0]]) + Own(members[1..])
  }

  /** `hides` is the test on keys that could hold a credential. */
  function Redact(v: Json, hides: string -> bool, depth: nat): Json
    decreases v, 1
  {
    if depth > MAX_DEPTH then TOO_DEEP
    else
      match v
      case Array(items) => Array(RedactItems(items, |Head(items)|, hides, depth + 1))
      case Object(members) => Object(RedactMembers(members, hides, depth + 1))
      case Text(s) => Text(Clip(s))
      case _ => v
  }

  /** The first n items. */
  function RedactItems(items: seq<Json>, n: nat, hides: string -> bool, depth: nat): (r: seq<Json>)
    requires n <= |items|
    ensures |r| == n
    decreases items, 0, n
  {
    seq(n, i requires 0 <= i < n => Redact(items[i], hides, depth))
  }

  function RedactMembers(members: seq<Member>, hides: string -> bool, depth: nat): (r: seq<Member>)
    ensures |r| == |Own(members)|
    decreases members, 0
  {
    var own := Own(members);
    seq(|own|, i requires 0 <= i < |own| =>
      assert own[i] in members;
      Member(own[i].key, if hides(own[i].key) then REDACTED else Redact(own[i].value, hides, depth)))
  }

  /** The bounds, written out. A text over 200 characters is its first 200 and an ellipsis; a list keeps its first 20
      items; below depth 6 nothing is shown; a hidden member shows that it is hidden; everything else is as it was. */
  lemma RedactionIs(v: Json, hides: string -> bool, depth: nat)
    ensures var r := Redact(v, hides, depth);
      if depth > 6 then r == Text("[depth]")
      else match v
        case Text(s) => if |s| <= 200 then r == v else r == Text(s[..200] + "…")
        case Array(items) =>
          && r.Array? && |r.items| == (if |items| <= 20 then |items| else 20)
          && forall i :: 0 <= i < |r.items| ==> r.items[i] == Redact(items[i], hides, depth + 1)
        case Object(members) =>
          && r.Object? && |r.members| == |Own(members)|
          && forall i :: 0 <= i < |r.members| ==>
               && r.members[i].key == Own(members)[i].key
               && r.members[i].value == if hides(r.members[i].key) then Text("[redacted]")
                                        else Redact(Own(members)[i].value, hides, depth + 1)
        case _ => r == v
  {
  }

  /** The members kept are, in order, all but those of the key `__proto__`. */
  lemma OwnIs(before: seq<Member>, m: Member, after: seq<Member>)
    ensures Own(before + [m] + after) == Own(before) + (if m.key == "__proto__" then [] else [m]) + Own(after)
  {
    OwnConcat(before + [m], after);
    OwnConcat(before, [m]);
    OwnOne(m);
  }

  lemma OwnOne(m: Member)
    ensures Own([m]) == if m.key == "__proto__" then [] else [m]
  {
    assert [m][1..] == [];
    assert Own([m]) == (if m.key == PROTO then [] else [m]) + Own([]);
  }

  /** Two values a reader of the log may not tell apart: they differ only under hidden keys and the key
      `__proto__`, below the depth bound, past the clipped tail of a list or the clipped tail of a text. */
  ghost predicate Alike(v: Json, w: Json, hides: string -> bool, depth: nat)
    decreases v, 1
  {
    if depth > MAX_DEPTH then true
    else
      match v
      case Array(items) => w.Array? && AlikeItems(items, w.items, hides, depth + 1)
      case Object(members) => w.Object? && AlikeMembers(members, w.members, hides, depth + 1)
      case Text(s) => w.Text? && Clip(s) == Clip(w.s)
      case _ => v == w
  }

  ghost predicate AlikeItems(a: seq<Json>, b: seq<Json>, hides: string -> bool, depth: nat)
    decreases a, 0
  {
    |Head(a)| == |Head(b)| && forall i :: 0 <= i < |Head(a)| ==> Alike(a[i], b[i], hides, depth)
  }

  ghost predicate AlikeMembers(a: seq<Member>, b: seq<Member>, hides: string -> bool, depth: nat)
    decreases a, 0
  {
    var m, n := Own(a), Own(b);
    && |m| == |n|
    && forall i :: 0 <= i < |m| ==>
         assert m[i] in a;
         m[i].key == n[i].key && (hides(m[i].key) || Alike(m[i].value, n[i].value, hides, depth))
  }

  /** Redaction keeps what kind of value it is. */
  predicate SameKind(v: Json, r: Json) {
    && (v.Array? <==> r.Array?) && (v.Object? <==> r.Object?) && (v.Text? <==> r.Text?)
    && (!v.Array? && !v.Object? && !v.Text? ==> r == v)
  }

  lemma RedactKind(v: Json, hides: string -> bool, depth: nat)
    requires depth <= MAX_DEPTH
    ensures var r := Redact(v, hides, depth);
      && SameKind(v, r)
      && (v.Array? ==> r.items == RedactItems(v.items, |Head(v.items)|, hides, depth + 1))
      && (v.Object? ==> r.members == RedactMembers(v.members, hides, depth + 1))
      && (v.Text? ==> r.s == Clip(v.s))
  {
  }

  lemma AlikeKind(v: Json, w: Json, hides: string -> bool, depth: nat)
    requires depth <= MAX_DEPTH
    ensures Alike(v, w, hides, depth) <==>
      match v
      case Array(items) => w.Array? && AlikeItems(items, w.items, hides, depth + 1)
      case Object(members) => w.Object? && AlikeMembers(members, w.members, hides, depth + 1)
      case Text(s) => w.Text? && Clip(s) == Clip(w.s)
      case _ => v == w
  {
  }

  lemma HiddenByKind(v: Json, w: Json, x: Json, y: Json)
    requires SameKind(v, x) && SameKind(w, y)
    ensures x == y <==>
            || (v.Array? && w.Array? && x.items == y.items)
            || (v.Object? && w.Object? && x.members == y.members)
            || (v.Text? && w.Text? && x.s == y.s)
            || (!v.Array? && !v.Object? && !v.Text? && v == w)
  {
  }

  lemma OthersHide(v: Json, w: Json, hides: string -> bool, depth: nat)
    requires depth <= MAX_DEPTH && !(v.Array? && w.Array?) && !(v.Object? && w.Object?)
    ensures Redact(v, hides, depth) == Redact(w, hides, depth) <==> Alike(v, w, hides, depth)
  {
    RedactKind(v, hides, depth);
    RedactKind(w, hides, depth);
    AlikeKind(v, w, hides, depth);
    HiddenByKind(v, w, Redact(v, hides, depth), Redact(w, hides, depth));
  }

  lemma ArraysHide(a: seq<Json>, b: seq<Json>, hides: string -> bool, depth: nat)
    requires depth <= MAX_DEPTH
    requires RedactItems(a, |Head(a)|, hides, depth + 1) == RedactItems(b, |Head(b)|, hides, depth + 1)
             <==> AlikeItems(a, b, hides, depth + 1)
    ensures Redact(Array(a), hides, depth) == Redact(Array(b), hides, depth)
            <==> Alike(Array(a), Array(b), hides, depth)
  {
  }

  lemma ObjectsHide(a: seq<Member>, b: seq<Member>, hides: string -> bool, depth: nat)
    requires depth <= MAX_DEPTH
    requires RedactMembers(a, hides, depth + 1) == RedactMembers(b, hides, depth + 1)
             <==> AlikeMembers(a, b, hides, depth + 1)
    ensures Redact(Object(a), hides, depth) == Redact(Object(b), hides, depth)
            <==> Alike(Object(a), Object(b), hides, depth)
  {
  }

  /** Non-interference, exactly: two values give the same output if and only if they are alike. */
  lemma {:induction false} RedactionHides(v: Json, w: Json, hides: string -> bool, depth: nat)
    ensures Redact(v, hides, depth) == Redact(w, hides, depth) <==> Alike(v, w, hides, depth)
    decreases v
  {
    if depth <= MAX_DEPTH {
      match (v, w) {
        case (Array(a), Array(b)) =>
          ItemsHide(a, b, hides, depth + 1);
          ArraysHide(a, b, hides, depth);
        case (Object(a), Object(b)) =>
          MembersHide(a, b, hides, depth + 1);
          ObjectsHide(a, b, hides, depth);
        case _ => OthersHide(v, w, hides, depth);
      }
    }
  }

  lemma {:induction false} ItemsHide(a: seq<Json>, b: seq<Json>, hides: string -> bool, depth: nat)
    ensures RedactItems(a, |Head(a)|, hides, depth) == RedactItems(b, |Head(b)|, hides, depth)
            <==> AlikeItems(a, b, hides, depth)
    decreases a
  {
    var x, y := RedactItems(a, |Head(a)|, hides, depth), RedactItems(b, |Head(b)|, hides, depth);
    if |Head(a)| == |Head(b)| {
      forall i | 0 <= i < |Head(a)|
        ensures x[i] == y[i] <==> Alike(a[i], b[i], hides, depth)
      {
        RedactionHides(a[i], b[i], hides, depth);
      }
    }
  }

  lemma {:induction false} MembersHide(a: seq<Member>, b: seq<Member>, hides: string -> bool, depth: nat)
    ensures RedactMembers(a, hides, depth) == RedactMembers(b, hides, depth) <==> AlikeMembers(a, b, hides, depth)
    decreases a
  {
    var x, y := RedactMembers(a, hides, depth), RedactMembers(b, hides, depth);
    var m, n := Own(a), Own(b);
    if |m| == |n| {
      forall i | 0 <= i < |m|
        ensures x[i] == y[i] <==>
                m[i].key == n[i].key && (hides(m[i].key) || Alike(m[i].value, n[i].value, hides, depth))
      {
        assert m[i] in a;
        RedactionHides(m[i].value, n[i].value, hides, depth);
      }
    }
  }

  lemma {:induction false} OwnIsKept(members: seq<Member>)
    requires forall m :: m in members ==> m.key != PROTO
    ensures Own(members) == members
  {
    if members != [] {
      OwnIsKept(members[1..]);
      assert members == [members[0]] + members[1..];
    }
  }

  lemma {:induction false} OwnConcat(a: seq<Member>, b: seq<Member>)
    ensures Own(a + b) == Own(a) + Own(b)
  {
    if a == [] {
      assert a + b == b;
    } else {
      assert (a + b)[1..] == a[1..] + b;
      OwnConcat(a[1..], b);
    }
  }

  /** A second redaction changes nothing. */
  lemma {:induction false} RedactionIsIdempotent(v: Json, hides: string -> bool, depth: nat)
    ensures Redact(Redact(v, hides, depth), hides, depth) == Redact(v, hides, depth)
    decreases v
  {
    if depth <= MAX_DEPTH {
      match v {
        case Array(items) => ItemsStay(items, hides, depth + 1);
        case Object(members) => MembersStay(members, hides, depth + 1);
        case _ => OthersStay(v, hides, depth);
      }
    }
  }

  lemma OthersStay(v: Json, hides: string -> bool, depth: nat)
    requires depth <= MAX_DEPTH && !v.Array? && !v.Object?
    ensures Redact(Redact(v, hides, depth), hides, depth) == Redact(v, hides, depth)
  {
    if v.Text? {
      ClipStays(v.s);
    }
  }

  lemma ClipStays(s: string)
    ensures Clip(Clip(s)) == Clip(s)
  {
    if |s| > MAX_TEXT {
      assert (s[..MAX_TEXT] + "…")[..MAX_TEXT] == s[..MAX_TEXT];
    }
  }

  lemma {:induction false} ItemsStay(items: seq<Json>, hides: string -> bool, depth: nat)
    ensures var x := RedactItems(items, |Head(items)|, hides, depth);
      RedactItems(x, |Head(x)|, hides, depth) == x
    decreases items
  {
    var x := RedactItems(items, |Head(items)|, hides, depth);
    forall i | 0 <= i < |x|
      ensures Redact(x[i], hides, depth) == x[i]
    {
      RedactionIsIdempotent(items[i], hides, depth);
    }
  }

  lemma {:induction false} MembersStay(members: seq<Member>, hides: string -> bool, depth: nat)
    ensures var x := RedactMembers(members, hides, depth);
      RedactMembers(x, hides, depth) == x
    decreases members
  {
    var own, x := Own(members), RedactMembers(members, hides, depth);
    forall i | 0 <= i < |x| && !hides(x[i].key)
      ensures Redact(x[i].value, hides, depth) == x[i].value
    {
      assert own[i] in members;
      RedactionIsIdempotent(own[i].value, hides, depth);
    }
    OwnIsKept(x);
  }

  lemma RedactConcat(a: seq<Member>, b: seq<Member>, hides: string -> bool, depth: nat)
    ensures RedactMembers(a + b, hides, depth) == RedactMembers(a, hides, depth) + RedactMembers(b, hides, depth)
  {
    OwnConcat(a, b);
  }

  /** In particular a credential under a hidden key never reaches the output, whatever it is and however deep. */
  lemma HiddenValueIsUnseen(
    before: seq<Member>, key: string, value: Json, other: Json, after: seq<Member>, hides: string -> bool)
    requires hides(key)
    ensures Redact(Object(before + [Member(key, value)] + after), hides, 0)
         == Redact(Object(before + [Member(key, other)] + after), hides, 0)
  {
    var v, w := [Member(key, value)], [Member(key, other)];
    RedactConcat(before + v, after, hides, 1);
    RedactConcat(before, v, hides, 1);
    RedactConcat(before + w, after, hides, 1);
    RedactConcat(before, w, hides, 1);
    assert v[1..] == [] && w[1..] == [];
    assert RedactMembers(v, hides, 1) == RedactMembers(w, hides, 1);
  }
}
