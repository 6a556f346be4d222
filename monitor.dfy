/** The backend's change detection: `diff_policies` compares two lists of
    Conditional Access policy records by `id`, and `check_for_changes` decides
    whether a freshly fetched configuration is saved as a new snapshot. */
module Monitor {
  import opened Util
  import opened Json
  import opened Text

  const InitialMessage: string := "Initial configuration" + " of Conditional Access Policies captured."
  const CreatedPrefix: string := "מדיניות נוצרה: '"
  const ModifiedPrefix: string := "מדיניות עודכנה: '"
  const DeletedPrefix: string := "מדיניות נמחקה: '"
  const UnknownName: string := "Unknown Name"

  // ---------------------------------------------------------------------------
  // Policy maps: the dicts built by `{p['id']: p for p in policies}`
  // ---------------------------------------------------------------------------

  /** One item of a dict keyed by policy id. */
  datatype Entry = Entry(id: Json, record: Json)

  /** A Python dict keyed by policy id: its items in insertion order. */
  type PolicyMap = seq<Entry>

  function Keys(d: PolicyMap): (ks: seq<Json>)
    ensures |ks| == |d| && forall i :: 0 <= i < |d| ==> ks[i] == d[i].id
  {
    seq(|d|, i requires 0 <= i < |d| => d[i].id)
  }

  lemma KeysAppend(front: PolicyMap, e: Entry)
    ensures Keys(front + [e]) == Keys(front) + [e.id]
  {
  }

  /** `d[k]` when `k in d`. */
  function Lookup(d: PolicyMap, k: Json): Option<Json>
  {
    match IndexOf(Keys(d), k)
    case Some(i) => Some(d[i].record)
    case None => None
  }

  /** `d[k] = v`: an existing key keeps its place and takes the new value,
      a new key is appended. */
  function Put(d: PolicyMap, k: Json, v: Json): PolicyMap
  {
    match IndexOf(Keys(d), k)
    case Some(i) => d[i := Entry(k, v)]
    case None => d + [Entry(k, v)]
  }

  /** The dict key a hashable id stands for. Python's dicts compare keys with
      `==` and hash: `True == 1` and `False == 0`, so a boolean id is the same
      key as that integer. Keys are kept in this form. */
  function DictKey(id: Json): Json
  {
    if id.JBool? then JNum(if id.b then 1 else 0) else id
  }

  /** The key `p['id']` stands for when it is a usable dict key; `None` where
      Python raises (KeyError for a missing `id`, TypeError for a record that is
      not a dict or an unhashable id). */
  function PolicyId(p: Json): Option<Json>
  {
    if p.JObj? && "id" in p.fields && IsHashable(p.fields["id"]) then Some(DictKey(p.fields["id"])) else None
  }

  /** The ids of a list of records, position by position. */
  function Ids(ps: seq<Json>): (ids: seq<Option<Json>>)
    ensures |ids| == |ps| && forall i :: 0 <= i < |ps| ==> ids[i] == PolicyId(ps[i])
  {
    seq(|ps|, i requires 0 <= i < |ps| => PolicyId(ps[i]))
  }

  /** Every record yields a usable id. */
  predicate AllIdsUsable(ps: seq<Json>)
  {
    forall i :: 0 <= i < |ps| ==> PolicyId(ps[i]).Some?
  }

  /** The dict the comprehension builds, one `d[p['id']] = p` per record. */
  function BuildById(ps: seq<Json>): PolicyMap
    requires AllIdsUsable(ps)
    decreases |ps|
  {
    if |ps| == 0 then []
    else Put(BuildById(ps[..|ps| - 1]), PolicyId(ps[|ps| - 1]).value, ps[|ps| - 1])
  }

  /** `{p['id']: p for p in ps}`; `None` when evaluating it raises, which it does
      as soon as one record has no usable id. */
  function IndexById(ps: seq<Json>): (r: Option<PolicyMap>)
    ensures r.None? <==> exists i :: 0 <= i < |ps| && PolicyId(ps[i]).None?
  {
    if AllIdsUsable(ps) then Some(BuildById(ps)) else None
  }

  lemma KeysPut(d: PolicyMap, k: Json, v: Json)
    ensures Keys(Put(d, k, v)) == if k in Keys(d) then Keys(d) else Keys(d) + [k]
    ensures NoDuplicates(Keys(d)) ==> NoDuplicates(Keys(Put(d, k, v)))
  {
  }

  lemma LookupPut(d: PolicyMap, k: Json, v: Json, k': Json)
    ensures Lookup(Put(d, k, v), k') == if k' == k then Some(v) else Lookup(d, k')
  {
    KeysPut(d, k, v);
    if k in Keys(d) {
      var i := IndexOf(Keys(d), k).value;
      assert Keys(Put(d, k, v)) == Keys(d);
      if k' in Keys(d) {
        var j := IndexOf(Keys(d), k').value;
        assert j == i <==> k' == k;
      }
    } else {
      IndexOfAppend(Keys(d), k, k');
    }
  }

  /** In a map without repeated keys, every item is what its key looks up. */
  lemma LookupAt(d: PolicyMap, i: nat)
    requires NoDuplicates(Keys(d)) && i < |d|
    ensures Lookup(d, d[i].id) == Some(d[i].record)
  {
    IndexOfDistinct(Keys(d), i);
  }

  /** A key that looks something up is the key of an item holding that value. */
  lemma LookupIndex(d: PolicyMap, k: Json) returns (i: nat)
    requires Lookup(d, k).Some?
    ensures i < |d| && d[i].id == k && d[i].record == Lookup(d, k).value
  {
    i := IndexOf(Keys(d), k).value;
  }

  /** One more record: the comprehension's dict for the records before it, with
      `d[p['id']] = p` applied. */
  lemma IndexByIdStep(ps: seq<Json>)
    requires IndexById(ps).Some? && |ps| > 0
    ensures IndexById(ps[..|ps| - 1]).Some?
    ensures IndexById(ps).value
         == Put(IndexById(ps[..|ps| - 1]).value, PolicyId(ps[|ps| - 1]).value, ps[|ps| - 1])
  {
    var front := ps[..|ps| - 1];
    assert AllIdsUsable(front) by {
      forall i | 0 <= i < |front| ensures PolicyId(front[i]).Some? {
        assert front[i] == ps[i];
      }
    }
  }

  /** The keys of the comprehension's dict are the ids of the records, each once,
      and there are no more items than records. */
  lemma {:induction false} IndexByIdKeys(ps: seq<Json>)
    requires IndexById(ps).Some?
    ensures NoDuplicates(Keys(IndexById(ps).value))
    ensures forall k :: k in Keys(IndexById(ps).value) <==> Some(k) in Ids(ps)
    ensures |IndexById(ps).value| <= |ps|
    decreases |ps|
  {
    if |ps| > 0 {
      var front := ps[..|ps| - 1];
      IndexByIdStep(ps);
      IndexByIdKeys(front);
      var d' := IndexById(front).value;
      var k := PolicyId(ps[|ps| - 1]).value;
      KeysPut(d', k, ps[|ps| - 1]);
      assert Ids(ps) == Ids(front) + [Some(k)];
    }
  }

  /** Position of the first record carrying id `k` (`|ps|` when there is none). */
  function FirstIdPosition(ps: seq<Json>, k: Json): nat
  {
    match IndexOf(Ids(ps), Some(k))
    case Some(i) => i
    case None => |ps|
  }

  lemma FirstIdPositionAppend(front: seq<Json>, x: Json, key: Json)
    ensures Some(key) in Ids(front) ==>
      FirstIdPosition(front + [x], key) == FirstIdPosition(front, key) < |front|
    ensures Some(key) !in Ids(front) && PolicyId(x) == Some(key) ==>
      FirstIdPosition(front + [x], key) == |front|
  {
    assert Ids(front + [x]) == Ids(front) + [PolicyId(x)];
    IndexOfAppend(Ids(front), PolicyId(x), Some(key));
  }

  /** `d[k] = v` keeps the keys of the items already there, in place. */
  lemma PutKeepsEarlierKeys(d: PolicyMap, k: Json, v: Json, a: nat)
    requires a < |d|
    ensures |d| <= |Put(d, k, v)| && Put(d, k, v)[a].id == d[a].id
    ensures k !in Keys(d) ==> |Put(d, k, v)| == |d| + 1 && Put(d, k, v)[|d|].id == k
  {
    KeysPut(d, k, v);
    assert Keys(Put(d, k, v))[a] == Keys(d)[a];
  }

  /** A repeated id keeps the position of its first record: the dict's keys come
      in the order in which their ids first occur in the list. */
  lemma {:induction false} IndexByIdOrder(ps: seq<Json>)
    requires IndexById(ps).Some?
    ensures var d := IndexById(ps).value;
      forall a, b :: 0 <= a < b < |d| ==> FirstIdPosition(ps, d[a].id) < FirstIdPosition(ps, d[b].id)
    decreases |ps|
  {
    if |ps| > 0 {
      var front := ps[..|ps| - 1];
      var x := ps[|ps| - 1];
      assert ps == front + [x];
      IndexByIdStep(ps);
      IndexByIdOrder(front);
      IndexByIdKeys(front);
      var d' := IndexById(front).value;
      var k := PolicyId(x).value;
      var d := IndexById(ps).value;
      KeysPut(d', k, x);
      forall a | 0 <= a < |d'|
        ensures d[a].id == d'[a].id
        ensures FirstIdPosition(ps, d[a].id) == FirstIdPosition(front, d'[a].id) < |front|
      {
        PutKeepsEarlierKeys(d', k, x, a);
        assert d'[a].id in Keys(d');
        FirstIdPositionAppend(front, x, d'[a].id);
      }
      if k !in Keys(d') {
        FirstIdPositionAppend(front, x, k);
        assert d[|d'|].id == k;
      }
      forall a, b | 0 <= a < b < |d|
        ensures FirstIdPosition(ps, d[a].id) < FirstIdPosition(ps, d[b].id)
      {
        if b < |d'| {
          assert FirstIdPosition(front, d'[a].id) < FirstIdPosition(front, d'[b].id);
        }
      }
    }
  }

  /** A repeated id keeps the value of its last record. */
  lemma {:induction false} IndexByIdLastValue(ps: seq<Json>, i: nat)
    requires IndexById(ps).Some? && i < |ps|
    requires forall j :: i < j < |ps| ==> PolicyId(ps[j]) != PolicyId(ps[i])
    ensures PolicyId(ps[i]).Some? && Lookup(IndexById(ps).value, PolicyId(ps[i]).value) == Some(ps[i])
    decreases |ps|
  {
    var front := ps[..|ps| - 1];
    var x := ps[|ps| - 1];
    IndexByIdStep(ps);
    var d' := IndexById(front).value;
    var k := PolicyId(x).value;
    LookupPut(d', k, x, PolicyId(ps[i]).value);
    if i < |ps| - 1 {
      IndexByIdLastValue(front, i);
    }
  }

  // ---------------------------------------------------------------------------
  // The changes `diff_policies` reports
  // ---------------------------------------------------------------------------

  /** One reported change: the policy's id and the name shown for it. */
  datatype PolicyChange =
    | Created(id: Json, name: string)
    | Modified(id: Json, name: string)
    | Deleted(id: Json, name: string)

  /** The human-readable line `diff_policies` appends for a change. */
  function Message(c: PolicyChange): string
  {
    match c
    case Created(_, n) => CreatedPrefix + n + "'"
    case Modified(_, n) => ModifiedPrefix + n + "'"
    case Deleted(_, n) => DeletedPrefix + n + "'"
  }

  function Messages(cs: seq<PolicyChange>): (ms: seq<string>)
    ensures |ms| == |cs| && forall i :: 0 <= i < |cs| ==> ms[i] == Message(cs[i])
  {
    seq(|cs|, i requires 0 <= i < |cs| => Message(cs[i]))
  }

  /** `str(v)` for the value of `displayName`; nested lists and dicts are
      shown as a placeholder. */
  function PyStr(v: Json): (s: string)
    ensures v.JStr? ==> s == v.s
    ensures v.JNum? ==> ParseDecimal(s) == Some(v.n)
    ensures v == JNull ==> s == "None"
  {
    match v
    case JNull => "None"
    case JBool(b) => if b then "True" else "False"
    case JNum(n) => DecimalRoundTrip(n); Decimal(n)
    case JStr(s) => s
    case JArr(_) => "[...]"
    case JObj(_) => "{...}"
  }

  /** `policy.get('displayName', 'Unknown Name')` as an f-string shows it. */
  function DisplayName(p: Json): (name: string)
    ensures (p.JObj? && "displayName" in p.fields && p.fields["displayName"].JStr?) ==>
              name == p.fields["displayName"].s
    ensures !(p.JObj? && "displayName" in p.fields) ==> name == UnknownName
  {
    if p.JObj? && "displayName" in p.fields then PyStr(p.fields["displayName"]) else UnknownName
  }

  /** What one item of the new map contributes (lines 37-43). */
  function NewEntryChanges(e: Entry, olds: PolicyMap): seq<PolicyChange>
  {
    match Lookup(olds, e.id)
    case None => [Created(e.id, DisplayName(e.record))]
    case Some(previous) => if previous != e.record then [Modified(e.id, DisplayName(e.record))] else []
  }

  /** The first loop: created and modified policies, in new-map order. */
  function CreatedOrModified(news: PolicyMap, olds: PolicyMap): seq<PolicyChange>
    decreases |news|
  {
    if |news| == 0 then []
    else CreatedOrModified(news[..|news| - 1], olds) + NewEntryChanges(news[|news| - 1], olds)
  }

  /** What one item of the old map contributes (lines 47-48). */
  function OldEntryChanges(e: Entry, news: PolicyMap): seq<PolicyChange>
  {
    if Lookup(news, e.id).None? then [Deleted(e.id, DisplayName(e.record))] else []
  }

  /** The second loop: deleted policies, in old-map order. */
  function DeletedPolicies(olds: PolicyMap, news: PolicyMap): seq<PolicyChange>
    decreases |olds|
  {
    if |olds| == 0 then []
    else DeletedPolicies(olds[..|olds| - 1], news) + OldEntryChanges(olds[|olds| - 1], news)
  }

  /** All changes between two well-formed policy maps. */
  function PolicyChanges(olds: PolicyMap, news: PolicyMap): seq<PolicyChange>
  {
    CreatedOrModified(news, olds) + DeletedPolicies(olds, news)
  }

  /** What `diff_policies(old_policies, new_policies)` returns. */
  function DiffOutcome(oldPolicies: Json, newPolicies: Json): (r: seq<string>)
    ensures r == [InitialMessage] <==> oldPolicies == JNull
    ensures oldPolicies != JNull && !(oldPolicies.JArr? && newPolicies.JArr?) ==> r == []
    ensures (oldPolicies.JArr? && newPolicies.JArr? &&
             (IndexById(oldPolicies.items).None? || IndexById(newPolicies.items).None?)) ==> r == []
  {
    if oldPolicies == JNull then [InitialMessage]
    else if !oldPolicies.JArr? || !newPolicies.JArr? then []
    else
      match (IndexById(oldPolicies.items), IndexById(newPolicies.items))
      case (Some(olds), Some(news)) =>
        var cs := PolicyChanges(olds, news);
        assert Messages(cs) != [InitialMessage] by {
          if |cs| == 1 {
            MessageIsNotInitial(cs[0]);
          }
        }
        Messages(cs)
      case _ => []
  }

  /** A change line never reads as the first-run line. */
  lemma MessageIsNotInitial(c: PolicyChange)
    ensures Message(c) != InitialMessage
  {
    assert Message(c)[0] != InitialMessage[0];
  }

  // ---------------------------------------------------------------------------
  // What the reported changes mean
  // ---------------------------------------------------------------------------

  /** The item of the new map a reported change comes from. */
  lemma {:induction false} CreatedOrModifiedSource(news: PolicyMap, olds: PolicyMap, c: PolicyChange) returns (i: nat)
    requires c in CreatedOrModified(news, olds)
    ensures i < |news| && c in NewEntryChanges(news[i], olds)
    decreases |news|
  {
    var front := news[..|news| - 1];
    if c in CreatedOrModified(front, olds) {
      i := CreatedOrModifiedSource(front, olds, c);
      assert front[i] == news[i];
    } else {
      i := |news| - 1;
    }
  }

  /** Every change an item of the new map contributes is reported. */
  lemma {:induction false} CreatedOrModifiedHas(news: PolicyMap, olds: PolicyMap, i: nat, c: PolicyChange)
    requires i < |news| && c in NewEntryChanges(news[i], olds)
    ensures c in CreatedOrModified(news, olds)
    decreases |news|
  {
    var front := news[..|news| - 1];
    if i < |front| {
      assert front[i] == news[i];
      CreatedOrModifiedHas(front, olds, i, c);
    }
  }

  lemma InCreatedOrModified(news: PolicyMap, olds: PolicyMap, c: PolicyChange)
    ensures c in CreatedOrModified(news, olds) <==>
      exists i :: 0 <= i < |news| && c in NewEntryChanges(news[i], olds)
  {
    if c in CreatedOrModified(news, olds) {
      var i := CreatedOrModifiedSource(news, olds, c);
    }
    if exists i :: 0 <= i < |news| && c in NewEntryChanges(news[i], olds) {
      var i :| 0 <= i < |news| && c in NewEntryChanges(news[i], olds);
      CreatedOrModifiedHas(news, olds, i, c);
    }
  }

  /** The item of the old map a reported deletion comes from. */
  lemma {:induction false} DeletedPoliciesSource(olds: PolicyMap, news: PolicyMap, c: PolicyChange) returns (i: nat)
    requires c in DeletedPolicies(olds, news)
    ensures i < |olds| && c in OldEntryChanges(olds[i], news)
    decreases |olds|
  {
    var front := olds[..|olds| - 1];
    if c in DeletedPolicies(front, news) {
      i := DeletedPoliciesSource(front, news, c);
      assert front[i] == olds[i];
    } else {
      i := |olds| - 1;
    }
  }

  /** Every deletion an item of the old map contributes is reported. */
  lemma {:induction false} DeletedPoliciesHas(olds: PolicyMap, news: PolicyMap, i: nat, c: PolicyChange)
    requires i < |olds| && c in OldEntryChanges(olds[i], news)
    ensures c in DeletedPolicies(olds, news)
    decreases |olds|
  {
    var front := olds[..|olds| - 1];
    if i < |front| {
      assert front[i] == olds[i];
      DeletedPoliciesHas(front, news, i, c);
    }
  }

  lemma InDeletedPolicies(olds: PolicyMap, news: PolicyMap, c: PolicyChange)
    ensures c in DeletedPolicies(olds, news) <==>
      exists i :: 0 <= i < |olds| && c in OldEntryChanges(olds[i], news)
  {
    if c in DeletedPolicies(olds, news) {
      var i := DeletedPoliciesSource(olds, news, c);
    }
    if exists i :: 0 <= i < |olds| && c in OldEntryChanges(olds[i], news) {
      var i :| 0 <= i < |olds| && c in OldEntryChanges(olds[i], news);
      DeletedPoliciesHas(olds, news, i, c);
    }
  }

  /** What one item of the new map reports, stated entry by entry. */
  lemma InNewEntryChanges(e: Entry, olds: PolicyMap, c: PolicyChange)
    ensures c in NewEntryChanges(e, olds) <==>
      && c.id == e.id && c.name == DisplayName(e.record)
      && ((c.Created? && Lookup(olds, e.id).None?) ||
          (c.Modified? && Lookup(olds, e.id).Some? && Lookup(olds, e.id).value != e.record))
  {
  }

  /** What one item of the old map reports, stated entry by entry. */
  lemma InOldEntryChanges(e: Entry, news: PolicyMap, c: PolicyChange)
    ensures c in OldEntryChanges(e, news) <==>
      c.Deleted? && c.id == e.id && c.name == DisplayName(e.record) && Lookup(news, e.id).None?
  {
  }

  /** A created or modified entry comes from the first loop only. */
  lemma InPolicyChangesNew(olds: PolicyMap, news: PolicyMap, c: PolicyChange)
    requires !c.Deleted?
    ensures c in PolicyChanges(olds, news) <==> exists i :: 0 <= i < |news| && c in NewEntryChanges(news[i], olds)
  {
    InCreatedOrModified(news, olds, c);
    InDeletedPolicies(olds, news, c);
  }

  /** A deleted entry comes from the second loop only. */
  lemma InPolicyChangesOld(olds: PolicyMap, news: PolicyMap, c: PolicyChange)
    requires c.Deleted?
    ensures c in PolicyChanges(olds, news) <==> exists i :: 0 <= i < |olds| && c in OldEntryChanges(olds[i], news)
  {
    InCreatedOrModified(news, olds, c);
    InDeletedPolicies(olds, news, c);
  }

  /** The item of the new map that reported a created or modified entry. */
  lemma NewEntryReporting(olds: PolicyMap, news: PolicyMap, c: PolicyChange) returns (i: nat)
    requires !c.Deleted? && c in PolicyChanges(olds, news)
    ensures i < |news| && c in NewEntryChanges(news[i], olds)
  {
    InPolicyChangesNew(olds, news, c);
    i :| 0 <= i < |news| && c in NewEntryChanges(news[i], olds);
  }

  /** The item of the old map that reported a deleted entry. */
  lemma OldEntryReporting(olds: PolicyMap, news: PolicyMap, c: PolicyChange) returns (i: nat)
    requires c.Deleted? && c in PolicyChanges(olds, news)
    ensures i < |olds| && c in OldEntryChanges(olds[i], news)
  {
    InPolicyChangesOld(olds, news, c);
    i :| 0 <= i < |olds| && c in OldEntryChanges(olds[i], news);
  }

  /** A policy is reported created, under its new name, exactly when its id is
      in the new map and not in the old one. */
  lemma CreatedIff(olds: PolicyMap, news: PolicyMap, k: Json, n: string)
    requires NoDuplicates(Keys(news))
    ensures Created(k, n) in PolicyChanges(olds, news) <==>
      Lookup(news, k).Some? && Lookup(olds, k).None? && n == DisplayName(Lookup(news, k).value)
  {
    var c := Created(k, n);
    if c in PolicyChanges(olds, news) {
      var i := NewEntryReporting(olds, news, c);
      InNewEntryChanges(news[i], olds, c);
      LookupAt(news, i);
    }
    if Lookup(news, k).Some? && Lookup(olds, k).None? && n == DisplayName(Lookup(news, k).value) {
      var i := LookupIndex(news, k);
      InNewEntryChanges(news[i], olds, c);
      InPolicyChangesNew(olds, news, c);
    }
  }

  /** A policy is reported modified, under its new name, exactly when its id is
      in both maps and the two records differ. */
  lemma ModifiedIff(olds: PolicyMap, news: PolicyMap, k: Json, n: string)
    requires NoDuplicates(Keys(news))
    ensures Modified(k, n) in PolicyChanges(olds, news) <==>
      && Lookup(news, k).Some? && Lookup(olds, k).Some?
      && Lookup(olds, k) != Lookup(news, k)
      && n == DisplayName(Lookup(news, k).value)
  {
    var c := Modified(k, n);
    if c in PolicyChanges(olds, news) {
      var i := NewEntryReporting(olds, news, c);
      InNewEntryChanges(news[i], olds, c);
      LookupAt(news, i);
    }
    if && Lookup(news, k).Some? && Lookup(olds, k).Some?
       && Lookup(olds, k) != Lookup(news, k) && n == DisplayName(Lookup(news, k).value)
    {
      var i := LookupIndex(news, k);
      InNewEntryChanges(news[i], olds, c);
      InPolicyChangesNew(olds, news, c);
    }
  }

  /** A policy is reported deleted, under its old name, exactly when its id is
      in the old map and not in the new one. */
  lemma DeletedIff(olds: PolicyMap, news: PolicyMap, k: Json, n: string)
    requires NoDuplicates(Keys(olds))
    ensures Deleted(k, n) in PolicyChanges(olds, news) <==>
      Lookup(olds, k).Some? && Lookup(news, k).None? && n == DisplayName(Lookup(olds, k).value)
  {
    var c := Deleted(k, n);
    if c in PolicyChanges(olds, news) {
      var i := OldEntryReporting(olds, news, c);
      InOldEntryChanges(olds[i], news, c);
      LookupAt(olds, i);
    }
    if Lookup(olds, k).Some? && Lookup(news, k).None? && n == DisplayName(Lookup(olds, k).value) {
      var i := LookupIndex(olds, k);
      InOldEntryChanges(olds[i], news, c);
      InPolicyChangesOld(olds, news, c);
    }
  }

  /** Position of key `k` in a map (`|d|` when absent). */
  function Position(d: PolicyMap, k: Json): nat
  {
    match IndexOf(Keys(d), k)
    case Some(i) => i
    case None => |d|
  }

  lemma PositionAppend(front: PolicyMap, e: Entry, k: Json)
    ensures Position(front, k) < |front| ==> Position(front + [e], k) == Position(front, k)
    ensures NoDuplicates(Keys(front + [e])) ==> Position(front + [e], e.id) == |front|
  {
    KeysAppend(front, e);
    IndexOfAppend(Keys(front), e.id, k);
    if NoDuplicates(Keys(front + [e])) {
      IndexOfDistinct(Keys(front + [e]), |front|);
    }
  }

  /** A key has a position inside the map exactly when it is one of its keys. */
  lemma PositionInKeys(d: PolicyMap, k: Json)
    ensures Position(d, k) < |d| <==> k in Keys(d)
  {
  }

  /** Every created or modified entry names an item of the new map, and there
      are no more of them than items. */
  lemma {:induction false} CreatedOrModifiedFrom(news: PolicyMap, olds: PolicyMap)
    ensures var cm := CreatedOrModified(news, olds);
      && |cm| <= |news|
      && (forall a :: 0 <= a < |cm| ==> !cm[a].Deleted? && cm[a].id in Keys(news))
    decreases |news|
  {
    if |news| > 0 {
      var front := news[..|news| - 1];
      var e := news[|news| - 1];
      assert news == front + [e];
      KeysAppend(front, e);
      CreatedOrModifiedFrom(front, olds);
    }
  }

  /** Created and modified policies are reported in the order of the new map. */
  lemma {:induction false} CreatedOrModifiedOrder(news: PolicyMap, olds: PolicyMap)
    requires NoDuplicates(Keys(news))
    ensures var cm := CreatedOrModified(news, olds);
      forall a, b :: 0 <= a < b < |cm| ==> Position(news, cm[a].id) < Position(news, cm[b].id)
    decreases |news|
  {
    if |news| > 0 {
      var front := news[..|news| - 1];
      var e := news[|news| - 1];
      assert news == front + [e];
      KeysAppend(front, e);
      CreatedOrModifiedOrder(front, olds);
      CreatedOrModifiedFrom(front, olds);
      var cm' := CreatedOrModified(front, olds);
      forall a | 0 <= a < |cm'| ensures Position(news, cm'[a].id) == Position(front, cm'[a].id) < |front| {
        PositionInKeys(front, cm'[a].id);
        PositionAppend(front, e, cm'[a].id);
      }
      PositionAppend(front, e, e.id);
    }
  }

  /** Every deleted entry names an item of the old map whose id is not in the
      new map, and there are no more of them than items. */
  lemma {:induction false} DeletedPoliciesFrom(olds: PolicyMap, news: PolicyMap)
    ensures var dp := DeletedPolicies(olds, news);
      && |dp| <= |olds|
      && (forall a :: 0 <= a < |dp| ==> dp[a].Deleted? && dp[a].id in Keys(olds) && dp[a].id !in Keys(news))
    decreases |olds|
  {
    if |olds| > 0 {
      var front := olds[..|olds| - 1];
      var e := olds[|olds| - 1];
      assert olds == front + [e];
      KeysAppend(front, e);
      DeletedPoliciesFrom(front, news);
      if Lookup(news, e.id).None? {
        assert e.id !in Keys(news);
      }
    }
  }

  /** Deleted policies are reported in the order of the old map. */
  lemma {:induction false} DeletedPoliciesOrder(olds: PolicyMap, news: PolicyMap)
    requires NoDuplicates(Keys(olds))
    ensures var dp := DeletedPolicies(olds, news);
      forall a, b :: 0 <= a < b < |dp| ==> Position(olds, dp[a].id) < Position(olds, dp[b].id)
    decreases |olds|
  {
    if |olds| > 0 {
      var front := olds[..|olds| - 1];
      var e := olds[|olds| - 1];
      assert olds == front + [e];
      KeysAppend(front, e);
      DeletedPoliciesOrder(front, news);
      DeletedPoliciesFrom(front, news);
      var dp' := DeletedPolicies(front, news);
      forall a | 0 <= a < |dp'| ensures Position(olds, dp'[a].id) == Position(front, dp'[a].id) < |front| {
        PositionInKeys(front, dp'[a].id);
        PositionAppend(front, e, dp'[a].id);
      }
      PositionAppend(front, e, e.id);
    }
  }

  /** The shape of the whole report: created/modified entries first, in new-map
      order, then deleted entries in old-map order, and there are at most as many
      entries as the two maps have ids. */
  lemma PolicyChangesShape(olds: PolicyMap, news: PolicyMap)
    requires NoDuplicates(Keys(olds)) && NoDuplicates(Keys(news))
    ensures var r := PolicyChanges(olds, news);
      && |r| <= |news| + |olds|
      && (forall a, b :: 0 <= a < b < |r| && r[a].Deleted? ==> r[b].Deleted?)
      && (forall a, b :: 0 <= a < b < |r| && !r[b].Deleted? ==> Position(news, r[a].id) < Position(news, r[b].id))
      && (forall a, b :: 0 <= a < b < |r| && r[a].Deleted? ==> Position(olds, r[a].id) < Position(olds, r[b].id))
  {
    CreatedOrModifiedFrom(news, olds);
    CreatedOrModifiedOrder(news, olds);
    DeletedPoliciesFrom(olds, news);
    DeletedPoliciesOrder(olds, news);
  }

  /** No policy is reported twice. */
  lemma PolicyChangesDistinct(olds: PolicyMap, news: PolicyMap)
    requires NoDuplicates(Keys(olds)) && NoDuplicates(Keys(news))
    ensures var r := PolicyChanges(olds, news);
      forall a, b :: 0 <= a < b < |r| ==> r[a].id != r[b].id
  {
    CreatedOrModifiedFrom(news, olds);
    CreatedOrModifiedOrder(news, olds);
    DeletedPoliciesFrom(olds, news);
    DeletedPoliciesOrder(olds, news);
    var cm := CreatedOrModified(news, olds);
    var dp := DeletedPolicies(olds, news);
    var r := cm + dp;
    forall a, b | 0 <= a < b < |r| ensures r[a].id != r[b].id {
      if b < |cm| {
        assert Position(news, cm[a].id) < Position(news, cm[b].id);
      } else if a >= |cm| {
        assert Position(olds, dp[a - |cm|].id) < Position(olds, dp[b - |cm|].id);
      } else {
        assert cm[a].id in Keys(news);
        assert dp[b - |cm|].id !in Keys(news);
      }
    }
  }

  lemma {:induction false} AgreeingCreatedOrModified(olds: PolicyMap, news: PolicyMap, m: nat)
    requires NoDuplicates(Keys(news)) && m <= |news|
    requires forall k :: Lookup(olds, k) == Lookup(news, k)
    ensures CreatedOrModified(news[..m], olds) == []
    decreases m
  {
    if m > 0 {
      AgreeingCreatedOrModified(olds, news, m - 1);
      assert news[..m][..m - 1] == news[..m - 1];
      var e := news[m - 1];
      LookupAt(news, m - 1);
      assert Lookup(olds, e.id) == Some(e.record);
    }
  }

  lemma {:induction false} AgreeingDeletedPolicies(olds: PolicyMap, news: PolicyMap, m: nat)
    requires NoDuplicates(Keys(olds)) && m <= |olds|
    requires forall k :: Lookup(olds, k) == Lookup(news, k)
    ensures DeletedPolicies(olds[..m], news) == []
    decreases m
  {
    if m > 0 {
      AgreeingDeletedPolicies(olds, news, m - 1);
      assert olds[..m][..m - 1] == olds[..m - 1];
      var e := olds[m - 1];
      LookupAt(olds, m - 1);
      assert Lookup(news, e.id) == Some(e.record);
    }
  }

  /** Maps that give every id the same record report nothing, whatever the order
      of their items. */
  lemma PolicyChangesOfAgreeing(olds: PolicyMap, news: PolicyMap)
    requires NoDuplicates(Keys(olds)) && NoDuplicates(Keys(news))
    requires forall k :: Lookup(olds, k) == Lookup(news, k)
    ensures PolicyChanges(olds, news) == []
  {
    AgreeingCreatedOrModified(olds, news, |news|);
    AgreeingDeletedPolicies(olds, news, |olds|);
    assert news[..|news|] == news && olds[..|olds|] == olds;
  }

  /** `diff_policies(x, x) == []` for every previous snapshot `x` that exists. */
  lemma DiffOfSame(x: Json)
    requires x != JNull
    ensures DiffOutcome(x, x) == []
  {
    if x.JArr? && IndexById(x.items).Some? {
      IndexByIdKeys(x.items);
      PolicyChangesOfAgreeing(IndexById(x.items).value, IndexById(x.items).value);
    }
  }

  lemma MessagesAppend(a: seq<PolicyChange>, b: seq<PolicyChange>)
    ensures Messages(a + b) == Messages(a) + Messages(b)
  {
  }

  /** One iteration of the first loop: the lines the item at `i` adds. */
  lemma CreatedOrModifiedStep(news: PolicyMap, olds: PolicyMap, i: nat)
    requires i < |news|
    ensures var policy := news[i];
      var previous := Lookup(olds, policy.id);
      Messages(CreatedOrModified(news[..i + 1], olds)) == Messages(CreatedOrModified(news[..i], olds)) +
        if previous.None? then [CreatedPrefix + DisplayName(policy.record) + "'"]
        else if previous.value != policy.record then [ModifiedPrefix + DisplayName(policy.record) + "'"]
        else []
  {
    assert news[..i + 1][..i] == news[..i];
    MessagesAppend(CreatedOrModified(news[..i], olds), NewEntryChanges(news[i], olds));
  }

  /** One iteration of the second loop: the line the item at `i` adds. */
  lemma DeletedPoliciesStep(olds: PolicyMap, news: PolicyMap, i: nat)
    requires i < |olds|
    ensures var policy := olds[i];
      Messages(DeletedPolicies(olds[..i + 1], news)) == Messages(DeletedPolicies(olds[..i], news)) +
        if Lookup(news, policy.id).None? then [DeletedPrefix + DisplayName(policy.record) + "'"] else []
  {
    assert olds[..i + 1][..i] == olds[..i];
    MessagesAppend(DeletedPolicies(olds[..i], news), OldEntryChanges(olds[i], news));
  }

  /** The first loop of `diff_policies` (lines 36-43): created and modified
      policies, in new-map order. */
  method ReportCreatedOrModified(olds: PolicyMap, news: PolicyMap) returns (changes: seq<string>)
    ensures changes == Messages(CreatedOrModified(news, olds))
  {
    changes := [];
    for i := 0 to |news|
      invariant changes == Messages(CreatedOrModified(news[..i], olds))
    {
      var policy := news[i];
      var previous := Lookup(olds, policy.id);
      CreatedOrModifiedStep(news, olds, i);
      if previous.None? {
        changes := changes + [CreatedPrefix + DisplayName(policy.record) + "'"];
      } else if previous.value != policy.record {
        changes := changes + [ModifiedPrefix + DisplayName(policy.record) + "'"];
      }
    }
    assert news[..|news|] == news;
  }

  /** The second loop of `diff_policies` (lines 46-48): deleted policies, in
      old-map order. */
  method ReportDeleted(olds: PolicyMap, news: PolicyMap) returns (changes: seq<string>)
    ensures changes == Messages(DeletedPolicies(olds, news))
  {
    changes := [];
    for i := 0 to |olds|
      invariant changes == Messages(DeletedPolicies(olds[..i], news))
    {
      var policy := olds[i];
      DeletedPoliciesStep(olds, news, i);
      if Lookup(news, policy.id).None? {
        changes := changes + [DeletedPrefix + DisplayName(policy.record) + "'"];
      }
    }
    assert olds[..|olds|] == olds;
  }

  /** `diff_policies`: index both lists by id, then report created and modified
      policies in new-map order, then deleted ones in old-map order. */
  method DiffPolicies(oldPolicies: Json, newPolicies: Json) returns (changes: seq<string>)
    ensures changes == DiffOutcome(oldPolicies, newPolicies)
  {
    if oldPolicies == JNull {
      return [InitialMessage];
    }
    if !oldPolicies.JArr? || !newPolicies.JArr? {
      return [];
    }
    var oldMap := IndexById(oldPolicies.items);
    var newMap := IndexById(newPolicies.items);
    if oldMap.None? || newMap.None? {
      return [];
    }
    var createdOrModified := ReportCreatedOrModified(oldMap.value, newMap.value);
    var deleted := ReportDeleted(oldMap.value, newMap.value);
    changes := createdOrModified + deleted;
    MessagesAppend(CreatedOrModified(newMap.value, oldMap.value), DeletedPolicies(oldMap.value, newMap.value));
  }

  // ---------------------------------------------------------------------------
  // check_for_changes
  // ---------------------------------------------------------------------------

  /** What one run of `check_for_changes` does. */
  datatype CheckOutcome =
    | Aborted     // the fetch returned None: nothing is saved
    | Unchanged   // the fetched configuration equals the latest snapshot: nothing is saved
    | Saved(timestamp: string, config: Json, changes: seq<string>, explanation: string)
                  // `save_snapshot` is called once with these arguments

  /** `check_for_changes`, with the latest stored configuration, the fetched one,
      the explanation service and the clock passed in. */
  method CheckForChanges(oldConfig: Json, newConfig: Json, explain: seq<string> -> string, timestamp: string)
    returns (outcome: CheckOutcome)
    ensures outcome == Aborted <==> newConfig == JNull
    ensures outcome == Unchanged <==> newConfig != JNull && oldConfig != JNull && oldConfig == newConfig
    ensures outcome.Saved? ==>
      && outcome.timestamp == timestamp
      && outcome.config == newConfig
      && outcome.changes == DiffOutcome(oldConfig, newConfig)
      && outcome.explanation == explain(outcome.changes)
    ensures outcome.Saved? && oldConfig == JNull ==> outcome.changes == [InitialMessage]
  {
    if newConfig == JNull {
      return Aborted;
    }
    if oldConfig != JNull && oldConfig == newConfig {
      return Unchanged;
    }
    var changes := DiffPolicies(oldConfig, newConfig);
    if |changes| == 0 {
      if oldConfig == JNull {
        changes := changes + [InitialMessage];
      }
    }
    var explanation := explain(changes);
    outcome := Saved(timestamp, newConfig, changes, explanation);
  }

  /** One record without a usable id in either list, and nothing is reported
      (there is no partial output). */
  lemma MalformedRecordReportsNothing(oldPolicies: Json, newPolicies: Json, p: Json)
    requires oldPolicies.JArr? && newPolicies.JArr?
    requires p in oldPolicies.items || p in newPolicies.items
    requires PolicyId(p).None?
    ensures DiffOutcome(oldPolicies, newPolicies) == []
  {
  }

  /** Old `[{"id": true, "displayName": "A"}]` against new
      `[{"id": 1, "displayName": "A"}]`: the key `1` is found in the old dict,
      whose key is `True`, and the records differ, so the single line reported
      is a modification. */
  lemma BooleanAndIntegerIdsShareKey()
    ensures var a := JObj(map["id" := JBool(true), "displayName" := JStr("A")]);
      var b := JObj(map["id" := JNum(1), "displayName" := JStr("A")]);
      DiffOutcome(JArr([a]), JArr([b])) == [ModifiedPrefix + "A" + "'"]
  {
    var a := JObj(map["id" := JBool(true), "displayName" := JStr("A")]);
    var b := JObj(map["id" := JNum(1), "displayName" := JStr("A")]);
    var k := JNum(1);
    assert PolicyId(a) == Some(k) && PolicyId(b) == Some(k);
    assert a != b by {
      assert a.fields["id"] != b.fields["id"];
    }
    SingleRecord(a);
    SingleRecord(b);
    SingleEntryChanges(Entry(k, a), Entry(k, b));
    assert DisplayName(b) == "A";
  }

  /** A one-record list gives a one-item dict. */
  lemma SingleRecord(p: Json)
    requires PolicyId(p).Some?
    ensures IndexById([p]) == Some([Entry(PolicyId(p).value, p)])
  {
    var k := PolicyId(p).value;
    assert [p][..0] == [];
    assert AllIdsUsable([p]);
    assert BuildById([]) == [];
    assert BuildById([p]) == Put([], k, p);
    assert IndexOf(Keys([]), k) == None;
    assert Put([], k, p) == [Entry(k, p)];
  }

  /** Two one-item dicts under the same key report a modification exactly when
      their records differ. */
  lemma SingleEntryChanges(before: Entry, after: Entry)
    requires before.id == after.id
    ensures PolicyChanges([before], [after]) ==
      if before.record != after.record then [Modified(after.id, DisplayName(after.record))] else []
  {
    assert Keys([before]) == [before.id] && Keys([after]) == [after.id];
    assert IndexOf([before.id], before.id) == Some(0);
    assert Lookup([before], after.id) == Some(before.record);
    assert Lookup([after], before.id) == Some(after.record);
    assert [before][..0] == [] && [after][..0] == [];
    assert CreatedOrModified([after], [before]) == NewEntryChanges(after, [before]);
    assert DeletedPolicies([before], [after]) == [];
  }

  /** The dict built from two records with different ids holds both, in order. */
  lemma IndexByIdPair(a: Json, b: Json)
    requires PolicyId(a).Some? && PolicyId(b).Some? && PolicyId(a) != PolicyId(b)
    ensures IndexById([a, b]) == Some([Entry(PolicyId(a).value, a), Entry(PolicyId(b).value, b)])
  {
    var ka, kb := PolicyId(a).value, PolicyId(b).value;
    assert AllIdsUsable([a, b]);
    assert [a, b][..1] == [a];
    assert [a][..0] == [];
    assert BuildById([a]) == Put([], ka, a);
    assert Keys([]) == [];
    assert Put([], ka, a) == [Entry(ka, a)];
    assert Keys([Entry(ka, a)]) == [ka];
    assert IndexOf([ka], kb) == None;
    assert Put([Entry(ka, a)], kb, b) == [Entry(ka, a), Entry(kb, b)];
    assert BuildById([a, b]) == Put(BuildById([a]), kb, b);
  }

  /** Looking a key up in a two-item dict with different keys. */
  lemma LookupPair(x: Entry, y: Entry, k: Json)
    requires x.id != y.id
    ensures Lookup([x, y], k) == if k == x.id then Some(x.record) else if k == y.id then Some(y.record) else None
  {
    var ks := Keys([x, y]);
    assert ks == [x.id, y.id];
    var r := IndexOf(ks, k);
    if k == x.id {
      assert ks[0] == k;
      assert r.value == 0;
    } else if k == y.id {
      assert ks[1] == k;
      assert r.value == 1;
    } else {
      assert k !in ks;
    }
  }

  /** A two-item dict and its reversal hold the same items. */
  lemma SwappedMapsAgree(x: Entry, y: Entry)
    requires x.id != y.id
    ensures NoDuplicates(Keys([x, y])) && NoDuplicates(Keys([y, x]))
    ensures forall k :: Lookup([x, y], k) == Lookup([y, x], k)
  {
    forall k ensures Lookup([x, y], k) == Lookup([y, x], k) {
      LookupPair(x, y, k);
      LookupPair(y, x, k);
    }
    assert Keys([x, y]) == [x.id, y.id];
    assert Keys([y, x]) == [y.id, x.id];
  }

  /** Two policies listed in the opposite order: the configurations differ (so a
      snapshot is saved), yet no change is reported. */
  lemma SwappedPoliciesReportNothing(a: Json, b: Json)
    requires PolicyId(a).Some? && PolicyId(b).Some? && PolicyId(a) != PolicyId(b)
    ensures JArr([a, b]) != JArr([b, a])
    ensures DiffOutcome(JArr([a, b]), JArr([b, a])) == []
  {
    assert JArr([a, b]).items[0] != JArr([b, a]).items[0];
    var ea, eb := Entry(PolicyId(a).value, a), Entry(PolicyId(b).value, b);
    IndexByIdPair(a, b);
    IndexByIdPair(b, a);
    SwappedMapsAgree(ea, eb);
    PolicyChangesOfAgreeing([ea, eb], [eb, ea]);
  }
}
