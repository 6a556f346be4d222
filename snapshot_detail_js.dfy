/** The snapshot detail panel, `SnapshotDetail.js` version: a classifier that
    also rewrites the line's prefix with a case-insensitive global replace, the
    derived flags, and the render precedence (there is no error state). */
module SnapshotDetailJs {
  import opened Util
  import opened Json
  import opened Text
  import opened Snapshots
  import Monitor
  import Jsx = SnapshotDetailJsx

  /** The kind `ChangeItem` picks for a change line. */
  function ChangeKindOf(change: string): (kind: ChangeKind)
    ensures kind == CreatedKind <==> Contains(Lower(change), "created") || Contains(Lower(change), CreatedWord)
    ensures change == "" ==> kind == InfoKind
  {
    KeywordKind(Lower(change), "created")
  }

  /** `s` starts with `pattern`, ignoring ASCII case. */
  predicate MatchesAt(s: string, pattern: string)
  {
    |pattern| <= |s| && Lower(s[..|pattern|]) == Lower(pattern)
  }

  /** The alternative of a regular expression `a|b|…` that matches at the start of
      `s`: the first one, as a backtracking matcher tries them in order. */
  function FirstMatch(s: string, alternatives: seq<string>): (m: Option<string>)
    ensures m.Some? ==> m.value in alternatives && MatchesAt(s, m.value)
    decreases |alternatives|
  {
    if |alternatives| == 0 then None
    else if MatchesAt(s, alternatives[0]) then Some(alternatives[0])
    else
      var m := FirstMatch(s, alternatives[1..]);
      assert alternatives == [alternatives[0]] + alternatives[1..];
      m
  }

  /** Nothing matches exactly when no alternative matches. */
  lemma {:induction false} FirstMatchNone(s: string, alternatives: seq<string>)
    ensures FirstMatch(s, alternatives).None? <==> forall i :: 0 <= i < |alternatives| ==> !MatchesAt(s, alternatives[i])
    decreases |alternatives|
  {
    if |alternatives| > 0 {
      FirstMatchNone(s, alternatives[1..]);
      assert forall i :: 0 < i < |alternatives| ==> alternatives[i] == alternatives[1..][i - 1];
    }
  }

  /** `s.replace(/a|b/gi, replacement)`: scanning left to right, every match is
      replaced and the scan resumes after it; text with no match anywhere is
      returned unchanged. */
  function ReplaceAll(s: string, alternatives: seq<string>, replacement: string): (r: string)
    requires forall a :: a in alternatives ==> a != ""
    ensures NoMatchAnywhere(s, alternatives) ==> r == s
    decreases |s|
  {
    if |s| == 0 then ""
    else
      match FirstMatch(s, alternatives)
      case Some(a) => replacement + ReplaceAll(s[|a|..], alternatives, replacement)
      case None => [s[0]] + ReplaceAll(s[1..], alternatives, replacement)
  }

  /** No alternative matches at any position of `s`. */
  predicate NoMatchAnywhere(s: string, alternatives: seq<string>)
    decreases |s|
  {
    |s| == 0 || (FirstMatch(s, alternatives).None? && NoMatchAnywhere(s[1..], alternatives))
  }

  /** Where nothing matches, the first character is copied. */
  lemma ReplaceStep(s: string, alternatives: seq<string>, replacement: string)
    requires forall a :: a in alternatives ==> a != ""
    requires |s| > 0 && FirstMatch(s, alternatives).None?
    ensures ReplaceAll(s, alternatives, replacement) == [s[0]] + ReplaceAll(s[1..], alternatives, replacement)
  {
  }

  /** No alternative matches at any of the first `k` positions of `s`. */
  predicate NoMatchBefore(s: string, alternatives: seq<string>, k: nat)
  {
    forall i :: 0 <= i < k && i < |s| ==> FirstMatch(s[i..], alternatives).None?
  }

  lemma NoMatchBeforeTail(s: string, alternatives: seq<string>, k: nat)
    requires 0 < k <= |s| && NoMatchBefore(s, alternatives, k)
    ensures FirstMatch(s, alternatives).None? && NoMatchBefore(s[1..], alternatives, k - 1)
  {
    assert s[0..] == s;
    forall i | 0 <= i < k - 1 && i < |s[1..]| ensures FirstMatch(s[1..][i..], alternatives).None? {
      assert s[1..][i..] == s[i + 1..];
    }
  }

  /** The first `k` characters, where nothing matches, are copied as they are. */
  lemma {:induction false} ReplaceCopiesUnmatched(s: string, alternatives: seq<string>, replacement: string, k: nat)
    requires forall a :: a in alternatives ==> a != ""
    requires k <= |s| && NoMatchBefore(s, alternatives, k)
    ensures ReplaceAll(s, alternatives, replacement) == s[..k] + ReplaceAll(s[k..], alternatives, replacement)
    decreases k
  {
    if k == 0 {
      assert s[..0] == [] && s[0..] == s;
    } else {
      NoMatchBeforeTail(s, alternatives, k);
      ReplaceCopiesUnmatched(s[1..], alternatives, replacement, k - 1);
      CopyOneMore(s, alternatives, replacement, k);
    }
  }

  /** One step of the copy: the first character is copied, then the next `k - 1`. */
  lemma CopyOneMore(s: string, alternatives: seq<string>, replacement: string, k: nat)
    requires forall a :: a in alternatives ==> a != ""
    requires 0 < k <= |s| && FirstMatch(s, alternatives).None?
    requires ReplaceAll(s[1..], alternatives, replacement) ==
      s[1..][..k - 1] + ReplaceAll(s[1..][k - 1..], alternatives, replacement)
    ensures ReplaceAll(s, alternatives, replacement) == s[..k] + ReplaceAll(s[k..], alternatives, replacement)
  {
    ReplaceStep(s, alternatives, replacement);
    SplitAfterFirst(s, k);
    Regroup([s[0]], s[1..][..k - 1], ReplaceAll(s[k..], alternatives, replacement));
  }

  lemma Regroup(a: string, b: string, c: string)
    ensures a + (b + c) == (a + b) + c
  {
  }

  lemma SplitAfterFirst(s: string, k: nat)
    requires 0 < k <= |s|
    ensures s[1..][k - 1..] == s[k..] && s[..k] == [s[0]] + s[1..][..k - 1]
  {
  }

  const CreatedPatterns: seq<string> := ["Policy Created:", "נוצרה:"]
  const ModifiedPatterns: seq<string> := ["Policy Modified:", "עודכנה:"]
  const DeletedPatterns: seq<string> := ["Policy Deleted:", "נמחקה:"]
  const CreatedLabel: string := "מדיניות נוצרה:"
  const ModifiedLabel: string := "מדיניות עודכנה:"
  const DeletedLabel: string := "מדיניות נמחקה:"

  /** The text `ChangeItem` shows for a line of the given kind. */
  function DisplayText(change: string, kind: ChangeKind): (text: string)
    ensures kind == InfoKind ==> text == change
  {
    match kind
    case CreatedKind => ReplaceAll(change, CreatedPatterns, CreatedLabel)
    case ModifiedKind => ReplaceAll(change, ModifiedPatterns, ModifiedLabel)
    case DeletedKind => ReplaceAll(change, DeletedPatterns, DeletedLabel)
    case InfoKind => change
  }

  /** `ChangeItem({ change })` for a string `change`. */
  function ChangeItemOf(change: string): (item: ChangeItem)
    ensures item.kind == ChangeKindOf(change)
    ensures item.colorClass == ColorClass(item.kind)
    ensures item.text == Some(DisplayText(change, item.kind))
    ensures item.kind == InfoKind ==> item.text == Some(change)
  {
    var kind := ChangeKindOf(change);
    ChangeItem(kind, ColorClass(kind), Some(DisplayText(change, kind)))
  }

  /** Where a pattern matches, the lower-cased text agrees with the lower-cased
      pattern. */
  lemma LowerOfMatch(s: string, pattern: string, i: nat, j: nat)
    requires MatchesAt(s, pattern) && i <= j <= |pattern|
    ensures Lower(s)[i..j] == Lower(pattern)[i..j]
  {
    forall k | i <= k < j ensures Lower(s)[k] == Lower(pattern)[k] {
      assert Lower(s[..|pattern|])[k] == LowerChar(s[k]);
    }
  }

  lemma LowerEnglishCreation()
    ensures Lower(CreatedPatterns[0])[7..14] == "created"
  {
    LowerSlice(CreatedPatterns[0], 7, 14);
    assert CreatedPatterns[0][7..14] == "Created";
  }

  /** A line in the English format, in any letter case, is shown as created
      with the Hebrew label in place of its prefix. */
  lemma EnglishCreationTranslated(change: string)
    requires MatchesAt(change, "Policy Created:")
    ensures ChangeItemOf(change).kind == CreatedKind
    ensures StartsWith(ChangeItemOf(change).text.value, CreatedLabel)
  {
    var lower := Lower(change);
    LowerOfMatch(change, CreatedPatterns[0], 7, 14);
    LowerEnglishCreation();
    assert OccursAt(lower, "created", 7);
    ContainsAt(lower, "created", 7);
    assert FirstMatch(change, CreatedPatterns) == Some("Policy Created:");
  }

  /** The backend's creation line `מדיניות נוצרה: '<name>'` is shown with its
      label doubled: the Hebrew alternative matches inside the prefix. */
  lemma BackendCreationLabelDoubled(id: Json, name: string)
    ensures var item := ChangeItemOf(Monitor.Message(Monitor.Created(id, name)));
      item.kind == CreatedKind && StartsWith(item.text.value, PolicyWord + CreatedLabel)
  {
    var c := Monitor.Created(id, name);
    BackendLineKind(c, "created");
    CreationLineRewritten(Monitor.Message(c), name);
  }

  lemma CreatedPrefixShape()
    ensures Monitor.CreatedPrefix == PolicyWord + CreatedPatterns[1] + " '"
    ensures CreatedLabel == PolicyWord + CreatedPatterns[1]
  {
  }

  lemma StartsWithConcat(a: string, b: string, c: string)
    ensures StartsWith(a + (b + c), a + b)
  {
    assert (a + (b + c))[..|a + b|] == a + b;
  }

  /** Nothing matches inside the word before the keyword. */
  lemma NoMatchInPolicyWord(m: string)
    requires |m| >= 14 && m[..14] == PolicyWord + CreatedPatterns[1]
    ensures NoMatchBefore(m, CreatedPatterns, 8)
  {
    forall i | 0 <= i < 8 && i < |m| ensures FirstMatch(m[i..], CreatedPatterns).None? {
      NoMatchInHebrewWord(m, i);
    }
  }

  lemma CreationLineRewritten(m: string, name: string)
    requires m == Monitor.CreatedPrefix + name + "'"
    ensures StartsWith(ReplaceAll(m, CreatedPatterns, CreatedLabel), PolicyWord + CreatedLabel)
  {
    var w, k := PolicyWord, CreatedPatterns[1];
    var rest := " '" + name + "'";
    CreatedPrefixShape();
    assert m == w + (k + rest);
    assert m[..14] == w + k;
    NoMatchInPolicyWord(m);
    ReplaceCopiesUnmatched(m, CreatedPatterns, CreatedLabel, 8);
    assert m[..8] == w && m[8..] == k + rest;
    HebrewKeywordReplaced(k + rest);
    assert (k + rest)[6..] == rest;
    StartsWithConcat(w, CreatedLabel, ReplaceAll(rest, CreatedPatterns, CreatedLabel));
  }

  /** At the Hebrew keyword the creation pattern matches and is replaced. */
  lemma HebrewKeywordReplaced(t: string)
    requires |t| >= 6 && t[..6] == "נוצרה:"
    ensures ReplaceAll(t, CreatedPatterns, CreatedLabel) == CreatedLabel + ReplaceAll(t[6..], CreatedPatterns, CreatedLabel)
  {
    var english, hebrew := CreatedPatterns[0], CreatedPatterns[1];
    assert t[..6][0] == 'נ';
    MismatchAt(t, english, 0);
    SecondAlternativeReplaced(t, english, hebrew, CreatedLabel);
  }

  lemma SecondAlternativeReplaced(t: string, first: string, second: string, replacement: string)
    requires first != "" && second != "" && !MatchesAt(t, first)
    requires |second| <= |t| && t[..|second|] == second
    ensures ReplaceAll(t, [first, second], replacement) == replacement + ReplaceAll(t[|second|..], [first, second], replacement)
  {
    assert [first, second][1..] == [second];
    assert FirstMatch(t, [first, second]) == Some(second);
  }

  /** Neither creation pattern matches inside the word before the keyword. */
  lemma NoMatchInHebrewWord(m: string, i: nat)
    requires |m| >= 14 && m[..14] == PolicyWord + CreatedPatterns[1] && i < 8
    ensures FirstMatch(m[i..], CreatedPatterns).None?
  {
    var s := m[i..];
    assert s[0] == m[..14][i];
    MismatchAt(s, "Policy Created:", 0);
    var j := if i == 3 then 1 else 0;
    assert s[j] == m[..14][i + j];
    MismatchAt(s, "נוצרה:", j);
    FirstMatchNone(s, CreatedPatterns);
  }

  /** A pattern does not match where one of its characters differs even after
      lower-casing. */
  lemma MismatchAt(s: string, pattern: string, j: nat)
    requires j < |pattern| && j < |s|
    requires LowerChar(s[j]) != LowerChar(pattern[j])
    ensures !MatchesAt(s, pattern)
  {
    if |pattern| <= |s| {
      assert Lower(s[..|pattern|])[j] != Lower(pattern)[j];
    }
  }

  /** The classifier and rewrite as evidently intended: a line that already carries
      one of the backend's prefixes is shown as it is, with the kind of its prefix. */
  function ChangeItemOfFixed(change: string): ChangeItem
  {
    match PrefixKind(change)
    case Some(kind) => ChangeItem(kind, ColorClass(kind), Some(change))
    case None => ChangeItemOf(change)
  }

  /** With the correction every backend line is shown unchanged, in the colour
      of its change. */
  lemma FixedShowsBackendLines(c: Monitor.PolicyChange)
    ensures ChangeItemOfFixed(Monitor.Message(c)) ==
      ChangeItem(KindOf(c), ColorClass(KindOf(c)), Some(Monitor.Message(c)))
  {
    PrefixKindOfMessage(c);
  }

  /** `snapshot.previous_config !== null`: only an explicit `null` hides the diff
      button; a missing field does not. */
  function HasPreviousConfig(snapshot: Snapshot): (r: bool)
    ensures !r <==> snapshot.previousConfig == Some(JNull)
    ensures snapshot.previousConfig.None? ==> r
  {
    snapshot.previousConfig != Some(JNull)
  }

  /** A snapshot without a `previous_config` field gets the diff button here but
      not in the `.jsx` version. */
  lemma MissingPreviousConfigOffersDiff(snapshot: Snapshot)
    requires snapshot.previousConfig.None?
    ensures HasPreviousConfig(snapshot) && !Jsx.HasPreviousConfig(Some(snapshot))
  {
  }

  /** No line before position `k` is `null` or contains the initial marker. */
  predicate ClearBefore(changes: seq<Option<string>>, k: nat)
  {
    forall j :: 0 <= j < k && j < |changes| ==> changes[j].Some? && !Contains(changes[j].value, InitialWord)
  }

  /** Scanning left to right, a `null` line comes before any initial line. */
  predicate NullFirst(changes: seq<Option<string>>)
  {
    exists i :: 0 <= i < |changes| && changes[i].None? && ClearBefore(changes, i)
  }

  /** Scanning left to right, an initial line comes before any `null` line. */
  predicate InitialFirst(changes: seq<Option<string>>)
  {
    exists i :: 0 <= i < |changes| && changes[i].Some? && Contains(changes[i].value, InitialWord) && ClearBefore(changes, i)
  }

  /** `changes.some(c => c.includes('Initial configuration'))`, left to right:
      `None` (the call throws) when it reaches a `null` line first, true when it
      reaches an initial line first, false when it reaches neither. */
  function SomeInitial(changes: seq<Option<string>>): (r: Option<bool>)
    ensures r.None? <==> NullFirst(changes)
    ensures r == Some(true) <==> InitialFirst(changes)
    ensures r == Some(false) <==> ClearBefore(changes, |changes|)
    ensures (forall i :: 0 <= i < |changes| ==> changes[i].Some?) ==> r == Some(Jsx.AnyInitial(changes))
    decreases |changes|
  {
    if |changes| == 0 then Some(false)
    else if changes[0].None? then
      assert changes[0].None? && ClearBefore(changes, 0);
      None
    else if Contains(changes[0].value, InitialWord) then
      assert changes[0].Some? && Contains(changes[0].value, InitialWord) && ClearBefore(changes, 0);
      Some(true)
    else
      var tail := changes[1..];
      var r := SomeInitial(tail);
      ShiftClear(changes);
      assert (forall i :: 0 <= i < |changes| ==> changes[i].Some?) ==> r == Some(Jsx.AnyInitial(changes)) by {
        if forall i :: 0 <= i < |changes| ==> changes[i].Some? {
          assert forall i :: 0 < i < |changes| ==> changes[i] == tail[i - 1];
          assert Jsx.AnyInitial(changes) == Jsx.AnyInitial(tail);
        }
      }
      r
  }

  /** Past a first line that is present and not initial, the scan's outcome is
      decided by the remaining lines. */
  lemma ShiftClear(changes: seq<Option<string>>)
    requires |changes| > 0 && changes[0].Some? && !Contains(changes[0].value, InitialWord)
    ensures NullFirst(changes) <==> NullFirst(changes[1..])
    ensures InitialFirst(changes) <==> InitialFirst(changes[1..])
    ensures ClearBefore(changes, |changes|) <==> ClearBefore(changes[1..], |changes| - 1)
  {
    var tail := changes[1..];
    forall k | 0 <= k < |changes| ensures ClearBefore(changes, k + 1) <==> ClearBefore(tail, k) {
      if ClearBefore(tail, k) {
        forall j | 0 < j < k + 1 && j < |changes|
          ensures changes[j].Some? && !Contains(changes[j].value, InitialWord)
        {
          assert changes[j] == tail[j - 1];
        }
      }
    }
    if NullFirst(changes) {
      var i :| 0 <= i < |changes| && changes[i].None? && ClearBefore(changes, i);
      assert tail[i - 1].None? && ClearBefore(tail, i - 1);
    }
    if NullFirst(tail) {
      var i :| 0 <= i < |tail| && tail[i].None? && ClearBefore(tail, i);
      assert changes[i + 1].None? && ClearBefore(changes, i + 1);
    }
    if InitialFirst(changes) {
      var i :| 0 <= i < |changes| && changes[i].Some? && Contains(changes[i].value, InitialWord) && ClearBefore(changes, i);
      assert tail[i - 1].Some? && Contains(tail[i - 1].value, InitialWord) && ClearBefore(tail, i - 1);
    }
    if InitialFirst(tail) {
      var i :| 0 <= i < |tail| && tail[i].Some? && Contains(tail[i].value, InitialWord) && ClearBefore(tail, i);
      assert changes[i + 1].Some? && Contains(changes[i + 1].value, InitialWord) && ClearBefore(changes, i + 1);
    }
  }

  /** `snapshot.changes && snapshot.changes.some(...)` */
  function IsInitialSnapshot(snapshot: Snapshot): (r: Option<bool>)
    ensures snapshot.changes.None? ==> r == Some(false)
    ensures r.None? <==> snapshot.changes.Some? && NullFirst(snapshot.changes.value)
    ensures (snapshot.changes.Some? ==>
               forall i :: 0 <= i < |snapshot.changes.value| ==> snapshot.changes.value[i].Some?) ==>
            r == Some(Jsx.IsInitialSnapshot(Some(snapshot)))
  {
    if snapshot.changes.None? then Some(false) else SomeInitial(snapshot.changes.value)
  }

  /** The items of the change list; `None` when a line is `null`, which throws. */
  function ChangeItems(changes: seq<Option<string>>): (items: Option<seq<ChangeItem>>)
    ensures items.Some? <==> forall i :: 0 <= i < |changes| ==> changes[i].Some?
    ensures items.Some? ==> |items.value| == |changes|
    ensures items.Some? ==> forall i :: 0 <= i < |changes| ==> items.value[i] == ChangeItemOf(changes[i].value)
  {
    if forall i :: 0 <= i < |changes| ==> changes[i].Some? then
      Some(seq(|changes|, i requires 0 <= i < |changes| => ChangeItemOf(changes[i].value)))
    else None
  }

  /** `SnapshotDetail({ snapshot, isLoading })`: loading, then no selection, then
      content; `None` when rendering throws on a `null` change line. */
  function Render(snapshot: Option<Snapshot>, isLoading: bool): (view: Option<View>)
    ensures view == Some(Loading) <==> isLoading
    ensures view == Some(NoSelection) <==> !isLoading && snapshot.None?
    ensures view.None? ==> snapshot.Some? && snapshot.value.changes.Some?
    ensures view.None? ==> exists i :: 0 <= i < |snapshot.value.changes.value| && snapshot.value.changes.value[i].None?
    ensures view.Some? && view.value.Content? ==> view.value.detail.showDiffButton == HasPreviousConfig(snapshot.value)
  {
    if isLoading then Some(Loading)
    else if snapshot.None? then Some(NoSelection)
    else
      var s := snapshot.value;
      var shown := ShownExplanation(s.explanation);
      match IsInitialSnapshot(s)
      case None => None
      case Some(true) => Some(Content(Detail(HasPreviousConfig(s), Initial(true, shown))))
      case Some(false) =>
        if s.changes.Some? && |s.changes.value| > 0 then
          match ChangeItems(s.changes.value)
          case None => None
          case Some(items) => Some(Content(Detail(HasPreviousConfig(s), ChangeList(items, shown))))
        else Some(Content(Detail(HasPreviousConfig(s), NoChanges)))
  }

  /** On snapshots without `null` lines both versions pick the same kind of body. */
  lemma VersionsAgreeOnBody(snapshot: Snapshot)
    requires snapshot.changes.Some? ==> forall i :: 0 <= i < |snapshot.changes.value| ==> snapshot.changes.value[i].Some?
    ensures var view := Render(Some(snapshot), false);
      var body := Jsx.ContentBody(snapshot);
      view.Some? && view.value.Content? &&
      (view.value.detail.body.Initial? <==> body.Initial?) &&
      (view.value.detail.body.ChangeList? <==> body.ChangeList?) &&
      (view.value.detail.body.NoChanges? <==> body.NoChanges?)
  {
  }
}
