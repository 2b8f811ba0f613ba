/** Pairing IDP and AG organizations: the map-indexed matcher of src/lib/org-export-candidates.ts against a nested
    scan. */
module OrgMatching {
  import opened Wrappers
  import opened Whitespace

  /** The fields the matcher reads; `id` stands for the rest of the row. */
  datatype Org = Org(id: string, slug: string, name: string)

  datatype Reason = ExactSlug | ExactName

  datatype Match = Match(idp: Org, ag: Org, reason: Reason)

  function LowerChar(c: char): char {
    if 'A' <= c <= 'Z' then (c as int + 32) as char else c
  }

  /** The case- and white-space-insensitive key; it is empty exactly when the trimmed text is. */
  function NormalizeMatchKey(s: string): (key: string)
    ensures key == "" <==> Trim(s) == ""
  {
    var t := Trim(s);
    seq(|t|, i requires 0 <= i < |t| => LowerChar(t[i]))
  }

  /** The same letter up to the case of an ASCII letter: code points 65 to 90 against 97 to 122. */
  predicate SameLetter(c: char, d: char) {
    || c == d
    || (65 <= c as int <= 90 && d as int == c as int + 32)
    || (65 <= d as int <= 90 && c as int == d as int + 32)
  }

  /** The same text but for white space around it and the case of its ASCII letters. */
  predicate SameText(a: string, b: string) {
    && |Trim(a)| == |Trim(b)|
    && forall i :: 0 <= i < |Trim(a)| ==> SameLetter(Trim(a)[i], Trim(b)[i])
  }

  /** Keys are equal exactly for the same text. */
  lemma SameKeyIff(a: string, b: string)
    ensures NormalizeMatchKey(a) == NormalizeMatchKey(b) <==> SameText(a, b)
  {
    var s, t := Trim(a), Trim(b);
    if |s| == |t| {
      forall i | 0 <= i < |s|
        ensures NormalizeMatchKey(a)[i] == NormalizeMatchKey(b)[i] <==> SameLetter(s[i], t[i])
      {
      }
    }
  }

  // ---------------------------------------------------------------- the specification: a nested scan

  /** The first row whose key under `of` is the given one. */
  function FirstWith(rows: seq<Org>, of: Org -> string, key: string): Option<Org> {
    if rows == [] then None
    else if of(rows[0]) == key then Some(rows[0])
    else FirstWith(rows[1..], of, key)
  }

  function SlugKey(o: Org): string {
    NormalizeMatchKey(o.slug)
  }

  function NameKey(o: Org): string {
    NormalizeMatchKey(o.name)
  }

  /** The match of one AG row: by slug if any IDP row has its non-empty slug, else by name. */
  function Pair(idpOrgs: seq<Org>, ag: Org): Option<Match> {
    var bySlug := if SlugKey(ag) == "" then None else FirstWith(idpOrgs, SlugKey, SlugKey(ag));
    var byName := if NameKey(ag) == "" then None else FirstWith(idpOrgs, NameKey, NameKey(ag));
    match bySlug
    case Some(idp) => Some(Match(idp, ag, ExactSlug))
    case None =>
      match byName
      case Some(idp) => Some(Match(idp, ag, ExactName))
      case None => None
  }

  function ToSeq<T>(o: Option<T>): seq<T> {
    match o
    case None => []
    case Some(x) => [x]
  }

  /** The results of those rows that have one, in order. */
  function Collect(rows: seq<Org>, of: Org -> Option<Match>): seq<Match> {
    if rows == [] then [] else Collect(rows[..|rows| - 1], of) + ToSeq(of(rows[|rows| - 1]))
  }

  function Pairing(idpOrgs: seq<Org>): Org -> Option<Match> {
    ag => Pair(idpOrgs, ag)
  }

  function Pairs(idpOrgs: seq<Org>, agOrgs: seq<Org>): seq<Match> {
    Collect(agOrgs, Pairing(idpOrgs))
  }

  // ---------------------------------------------------------------- the implementation: two lookup maps

  /** The map holds, for every non-empty key, the first row that has it, and nothing else. */
  ghost predicate Indexes(index: map<string, Org>, rows: seq<Org>, of: Org -> string) {
    && "" !in index
    && (forall key :: key != "" ==>
          FirstWith(rows, of, key) == if key in index then Some(index[key]) else None)
  }

  lemma {:induction false} FirstWithAppend(rows: seq<Org>, more: seq<Org>, of: Org -> string, key: string)
    ensures FirstWith(rows + more, of, key)
         == if FirstWith(rows, of, key).Some? then FirstWith(rows, of, key) else FirstWith(more, of, key)
  {
    if rows == [] {
      assert rows + more == more;
    } else {
      assert (rows + more)[1..] == rows[1..] + more;
      FirstWithAppend(rows[1..], more, of, key);
    }
  }

  function Indexed(index: map<string, Org>, row: Org, of: Org -> string): map<string, Org> {
    if of(row) == "" || of(row) in index then index else index[of(row) := row]
  }

  lemma IndexOne(index: map<string, Org>, rows: seq<Org>, row: Org, of: Org -> string)
    requires Indexes(index, rows, of)
    ensures Indexes(Indexed(index, row, of), rows + [row], of)
  {
    forall key | key != ""
      ensures FirstWith(rows + [row], of, key)
           == if key in Indexed(index, row, of) then Some(Indexed(index, row, of)[key]) else None
    {
      FirstWithAppend(rows, [row], of, key);
      assert [row][1..] == [];
    }
  }

  method DeriveOrganizationCandidateMatches(idpOrgs: seq<Org>, agOrgs: seq<Org>) returns (matches: seq<Match>)
    ensures matches == Pairs(idpOrgs, agOrgs)
  {
    var idpBySlug: map<string, Org> := map[];
    var idpByName: map<string, Org> := map[];
    for i := 0 to |idpOrgs|
      invariant Indexes(idpBySlug, idpOrgs[..i], SlugKey)
      invariant Indexes(idpByName, idpOrgs[..i], NameKey)
    {
      var idp := idpOrgs[i];
      assert idpOrgs[..i + 1] == idpOrgs[..i] + [idp];
      IndexOne(idpBySlug, idpOrgs[..i], idp, SlugKey);
      IndexOne(idpByName, idpOrgs[..i], idp, NameKey);
      idpBySlug := AddFirst(idpBySlug, idp, SlugKey);
      idpByName := AddFirst(idpByName, idp, NameKey);
    }
    assert idpOrgs[..|idpOrgs|] == idpOrgs;
    matches := [];
    for i := 0 to |agOrgs|
      invariant matches == Pairs(idpOrgs, agOrgs[..i])
    {
      var ag := agOrgs[i];
      assert agOrgs[..i + 1][..i] == agOrgs[..i];
      var paired: Option<Match> := None;
      var slug := NormalizeMatchKey(ag.slug);
      if slug != "" && slug in idpBySlug {
        paired := Some(Match(idpBySlug[slug], ag, ExactSlug));
      }
      var name := NormalizeMatchKey(ag.name);
      if paired.None? && name != "" && name in idpByName {
        paired := Some(Match(idpByName[name], ag, ExactName));
      }
      assert paired == Pair(idpOrgs, ag);
      if paired.Some? {
        matches := matches + [paired.value];
      }
    }
    assert agOrgs[..|agOrgs|] == agOrgs;
  }

  /** The first row of a key stays; an empty key is not indexed. */
  method AddFirst(index: map<string, Org>, row: Org, of: Org -> string) returns (next: map<string, Org>)
    ensures next == Indexed(index, row, of)
  {
    var key := of(row);
    next := index;
    if key != "" {
      if key !in index {
        next := index[key := row];
      }
    }
  }

  // ---------------------------------------------------------------- what the pairs are

  /** Row i has the key, and no earlier row has. */
  predicate IsFirst(rows: seq<Org>, of: Org -> string, key: string, i: nat) {
    i < |rows| && of(rows[i]) == key && forall j :: 0 <= j < i ==> of(rows[j]) != key
  }

  lemma {:induction false} FirstWithIsFirst(rows: seq<Org>, of: Org -> string, key: string)
    ensures match FirstWith(rows, of, key)
      case Some(row) => exists i: nat :: IsFirst(rows, of, key, i) && rows[i] == row
      case None => forall i :: 0 <= i < |rows| ==> of(rows[i]) != key
  {
    if rows != [] {
      if of(rows[0]) == key {
        assert IsFirst(rows, of, key, 0);
      } else {
        FirstWithIsFirst(rows[1..], of, key);
        if FirstWith(rows, of, key).Some? {
          var i: nat :| IsFirst(rows[1..], of, key, i) && rows[1..][i] == FirstWith(rows, of, key).value;
          assert forall j :: 0 < j < i + 1 ==> of(rows[j]) == of(rows[1..][j - 1]);
          assert IsFirst(rows, of, key, i + 1);
        }
      }
    }
  }

  /** Row i is the first whose field is the same text. */
  predicate FirstSame(rows: seq<Org>, of: Org -> string, text: string, i: nat) {
    i < |rows| && SameText(of(rows[i]), text) && forall j :: 0 <= j < i ==> !SameText(of(rows[j]), text)
  }

  predicate NoneSame(rows: seq<Org>, of: Org -> string, text: string) {
    Trim(text) == "" || forall j :: 0 <= j < |rows| ==> !SameText(of(rows[j]), text)
  }

  function SlugOf(o: Org): string {
    o.slug
  }

  function NameOf(o: Org): string {
    o.name
  }

  lemma ScanIs(rows: seq<Org>, of: Org -> string, key: Org -> string, text: string)
    requires forall o: Org :: key(o) == NormalizeMatchKey(of(o))
    ensures match FirstWith(rows, key, NormalizeMatchKey(text))
      case Some(row) => exists i: nat :: FirstSame(rows, of, text, i) && rows[i] == row
      case None => forall j :: 0 <= j < |rows| ==> !SameText(of(rows[j]), text)
  {
    var k := NormalizeMatchKey(text);
    FirstWithIsFirst(rows, key, k);
    forall j | 0 <= j < |rows|
      ensures key(rows[j]) == k <==> SameText(of(rows[j]), text)
    {
      SameKeyIff(of(rows[j]), text);
    }
    if FirstWith(rows, key, k).Some? {
      var i: nat :| IsFirst(rows, key, k, i) && rows[i] == FirstWith(rows, key, k).value;
      assert FirstSame(rows, of, text, i);
    }
  }

  /** What one AG row is paired with, in the rows' own texts: the first IDP row of the same non-blank slug; if there is
      none, the first of the same non-blank name; else nothing. */
  lemma PairIs(idpOrgs: seq<Org>, ag: Org)
    ensures match Pair(idpOrgs, ag)
      case Some(Match(idp, row, ExactSlug)) =>
        row == ag && Trim(ag.slug) != "" && exists i: nat :: FirstSame(idpOrgs, SlugOf, ag.slug, i) && idpOrgs[i] == idp
      case Some(Match(idp, row, ExactName)) =>
        && row == ag && NoneSame(idpOrgs, SlugOf, ag.slug)
        && Trim(ag.name) != "" && exists i: nat :: FirstSame(idpOrgs, NameOf, ag.name, i) && idpOrgs[i] == idp
      case None => NoneSame(idpOrgs, SlugOf, ag.slug) && NoneSame(idpOrgs, NameOf, ag.name)
  {
    ScanIs(idpOrgs, SlugOf, SlugKey, ag.slug);
    ScanIs(idpOrgs, NameOf, NameKey, ag.name);
  }

  lemma {:induction false} CollectInOrder(rows: seq<Org>, of: Org -> Option<Match>) returns (at: seq<nat>)
    ensures |at| == |Collect(rows, of)|
    ensures forall k :: 0 <= k < |at| ==> at[k] < |rows| && of(rows[at[k]]) == Some(Collect(rows, of)[k])
    ensures forall k, l :: 0 <= k < l < |at| ==> at[k] < at[l]
  {
    if rows == [] {
      at := [];
    } else {
      var n := |rows| - 1;
      at := CollectInOrder(rows[..n], of);
      if of(rows[n]).Some? {
        at := at + [n];
      }
    }
  }

  /** The positions of the rows that have a result. */
  function Matched(rows: seq<Org>, of: Org -> Option<Match>): set<nat> {
    set i: nat | i < |rows| && of(rows[i]).Some?
  }

  lemma {:induction false} CollectMissesNone(rows: seq<Org>, of: Org -> Option<Match>)
    ensures |Collect(rows, of)| == |Matched(rows, of)|
  {
    if rows != [] {
      var n := |rows| - 1;
      CollectMissesNone(rows[..n], of);
      assert Matched(rows, of) == Matched(rows[..n], of) + (if of(rows[n]).Some? then {n} else {});
    }
  }

  /** The output is an in-order subsequence of the AG rows, strictly increasing positions, each with its own match;
      and there are as many as AG rows that have a match, so none is missing. */
  lemma InOrder(idpOrgs: seq<Org>, agOrgs: seq<Org>) returns (at: seq<nat>)
    ensures |at| == |Pairs(idpOrgs, agOrgs)| == |Matched(agOrgs, Pairing(idpOrgs))|
    ensures forall k :: 0 <= k < |at| ==>
              at[k] < |agOrgs| && Pair(idpOrgs, agOrgs[at[k]]) == Some(Pairs(idpOrgs, agOrgs)[k])
    ensures forall k, l :: 0 <= k < l < |at| ==> at[k] < at[l]
  {
    at := CollectInOrder(agOrgs, Pairing(idpOrgs));
    CollectMissesNone(agOrgs, Pairing(idpOrgs));
  }

  /** More IDP rows never remove a match, never change a slug match, and turn a name match at most into a slug match. */
  lemma AppendingKeepsMatches(idpOrgs: seq<Org>, more: seq<Org>, ag: Org)
    requires Pair(idpOrgs, ag).Some?
    ensures var before, after := Pair(idpOrgs, ag).value, Pair(idpOrgs + more, ag);
      && after.Some?
      && (before.reason == ExactSlug ==> after.value == before)
      && (before.reason == ExactName ==>
            if SlugKey(ag) != "" && FirstWith(more, SlugKey, SlugKey(ag)).Some? then after.value.reason == ExactSlug
            else after.value == before)
  {
    FirstWithAppend(idpOrgs, more, SlugKey, SlugKey(ag));
    FirstWithAppend(idpOrgs, more, NameKey, NameKey(ag));
  }
}
