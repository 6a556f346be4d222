/** The snapshot detail panel, `SnapshotDetail.jsx` version: the change-line
    classifier, the derived flags, the render precedence and the memo test. */
module SnapshotDetailJsx {
  import opened Util
  import opened Json
  import opened Text
  import opened Snapshots
  import Monitor

  /** `(change || '').toLowerCase()` */
  function LowerText(change: Option<string>): string
  {
    Lower(if change.Some? then change.value else "")
  }

  /** The kind `ChangeItem` picks for a change line. */
  function ChangeKindOf(change: Option<string>): (kind: ChangeKind)
    ensures kind == CreatedKind <==> Contains(LowerText(change), "added") || Contains(LowerText(change), CreatedWord)
    ensures change.None? || change == Some("") ==> kind == InfoKind
  {
    KeywordKind(LowerText(change), "added")
  }

  /** `ChangeItem({ change })`: the line is shown as given, in its kind's colour. */
  function ChangeItemOf(change: Option<string>): (item: ChangeItem)
    ensures item.kind == ChangeKindOf(change)
    ensures item.text == change
    ensures item.colorClass == ColorClass(item.kind)
  {
    var kind := ChangeKindOf(change);
    ChangeItem(kind, ColorClass(kind), change)
  }

  /** The classification ignores ASCII case: a line and its lower-case form get
      the same kind. */
  lemma ClassificationIgnoresCase(s: string)
    ensures ChangeKindOf(Some(Lower(s))) == ChangeKindOf(Some(s))
  {
    LowerIdempotent(s);
  }

  /** A creation reported by the backend is always shown as created. */
  lemma BackendCreationShownCreated(id: Json, name: string)
    ensures ChangeItemOf(Some(Monitor.Message(Monitor.Created(id, name)))).kind == CreatedKind
  {
    BackendLineKind(Monitor.Created(id, name), "added");
  }

  /** A backend line is never shown as plain information. */
  lemma BackendLineNeverInfo(c: Monitor.PolicyChange)
    ensures ChangeItemOf(Some(Monitor.Message(c))).kind != InfoKind
  {
    BackendLineKind(c, "added");
  }

  /** A modification of a policy whose name contains "Added" is shown as a
      creation: the keyword is searched in the whole line, name included. */
  lemma ModificationShownAsCreation()
    ensures var line := Monitor.Message(Monitor.Modified(JStr("p1"), "Added users"));
      ChangeItemOf(Some(line)).kind == CreatedKind
  {
    var c := Monitor.Modified(JStr("p1"), "Added users");
    LowerMessage(c);
    var lower := Monitor.ModifiedPrefix + Lower("Added users") + "'";
    assert Lower("Added users")[..5] == "added";
    assert OccursAt(lower, "added", |Monitor.ModifiedPrefix|);
    ContainsAt(lower, "added", |Monitor.ModifiedPrefix|);
  }

  /** The classifier as evidently intended: the backend's prefix decides first. */
  function ChangeKindOfFixed(change: Option<string>): ChangeKind
  {
    if change.Some? && PrefixKind(change.value).Some? then PrefixKind(change.value).value
    else ChangeKindOf(change)
  }

  /** With the corrected classifier every backend line gets the kind of its
      change, whatever the policy is called. */
  lemma FixedClassifiesBackendLines(c: Monitor.PolicyChange)
    ensures ChangeKindOfFixed(Some(Monitor.Message(c))) == KindOf(c)
  {
    PrefixKindOfMessage(c);
  }

  /** `!!snapshot?.previous_config`: the diff button is offered. */
  function HasPreviousConfig(snapshot: Option<Snapshot>): (r: bool)
    ensures r ==> snapshot.Some? && snapshot.value.previousConfig.Some?
    ensures r ==> snapshot.value.previousConfig != Some(JNull)
    ensures (snapshot.Some? && snapshot.value.previousConfig.Some? &&
             (snapshot.value.previousConfig.value.JArr? || snapshot.value.previousConfig.value.JObj?)) ==> r
  {
    snapshot.Some? && snapshot.value.previousConfig.Some? && Truthy(snapshot.value.previousConfig.value)
  }

  /** `changes.some(c => c?.includes('Initial configuration'))` */
  function AnyInitial(changes: seq<Option<string>>): (r: bool)
    ensures r <==> exists i :: 0 <= i < |changes| && changes[i].Some? && Contains(changes[i].value, InitialWord)
    decreases |changes|
  {
    if |changes| == 0 then false
    else
      var c := changes[|changes| - 1];
      assert changes == changes[..|changes| - 1] + [c];
      AnyInitial(changes[..|changes| - 1]) || (c.Some? && Contains(c.value, InitialWord))
  }

  /** `snapshot?.changes?.some(...)`, with `undefined` read as false. */
  function IsInitialSnapshot(snapshot: Option<Snapshot>): (r: bool)
    ensures r <==> (snapshot.Some? && snapshot.value.changes.Some? &&
                    exists i :: 0 <= i < |snapshot.value.changes.value| &&
                      snapshot.value.changes.value[i].Some? &&
                      Contains(snapshot.value.changes.value[i].value, InitialWord))
  {
    snapshot.Some? && snapshot.value.changes.Some? && AnyInitial(snapshot.value.changes.value)
  }

  /** The body of a selected snapshot. */
  function ContentBody(snapshot: Snapshot): (body: Body)
    ensures body.Initial? <==> IsInitialSnapshot(Some(snapshot))
    ensures body.Initial? ==> body.boxShown == ShownExplanation(snapshot.explanation).Some?
    ensures body.Initial? ==> body.explanation == ShownExplanation(snapshot.explanation)
    ensures body.ChangeList? ==> body.items != [] && body.explanation == ShownExplanation(snapshot.explanation)
    ensures body.ChangeList? ==> snapshot.changes.Some? && |body.items| == |snapshot.changes.value|
    ensures body.ChangeList? ==> forall i :: 0 <= i < |body.items| ==>
      body.items[i] == ChangeItemOf(snapshot.changes.value[i])
    ensures body.NoChanges? <==>
      !IsInitialSnapshot(Some(snapshot)) && (snapshot.changes.None? || snapshot.changes.value == [])
  {
    var shown := ShownExplanation(snapshot.explanation);
    if IsInitialSnapshot(Some(snapshot)) then Initial(shown.Some?, shown)
    else if snapshot.changes.Some? && |snapshot.changes.value| > 0 then
      var cs := snapshot.changes.value;
      ChangeList(seq(|cs|, i requires 0 <= i < |cs| => ChangeItemOf(cs[i])), shown)
    else NoChanges
  }

  /** The component's props; `onShowConfig` is the identity of the callback. */
  datatype Props = Props(snapshot: Option<Snapshot>, isLoading: bool, error: Option<string>, onShowConfig: nat)

  /** `SnapshotDetail(props)`: loading, then error, then no selection, then content. */
  function Render(props: Props): (view: View)
    ensures view.Loading? <==> props.isLoading
    ensures view.ErrorView? <==> !props.isLoading && props.error.Some?
    ensures view.NoSelection? <==> !props.isLoading && props.error.None? && props.snapshot.None?
    ensures view.Content? ==> view.detail.showDiffButton == HasPreviousConfig(props.snapshot)
    ensures view.Content? ==> view.detail.body == ContentBody(props.snapshot.value)
  {
    if props.isLoading then Loading
    else if props.error.Some? then ErrorView(props.error.value)
    else if props.snapshot.None? then NoSelection
    else Content(Detail(HasPreviousConfig(props.snapshot), ContentBody(props.snapshot.value)))
  }

  /** `areEqual(prevProps, nextProps)`: the memo skips a render when this holds.
      Skipping is safe for what is shown: props it calls equal render the same
      view (only the click callback may differ). */
  function AreEqual(prevProps: Props, nextProps: Props): (r: bool)
    ensures r ==> Render(prevProps) == Render(nextProps)
  {
    prevProps.isLoading == nextProps.isLoading &&
    prevProps.error == nextProps.error &&
    prevProps.snapshot == nextProps.snapshot
  }

  /** The snapshot the backend saves on its first run shows the explanation only,
      and no diff button, since it has no previous configuration. */
  lemma FirstSnapshotShowsExplanation(explanation: string)
    requires explanation != ""
    ensures var snapshot := Snapshot(Some(JNull), Some([Some(Monitor.InitialMessage)]), Some(explanation));
      Render(Props(Some(snapshot), false, None, 0)) == Content(Detail(false, Initial(true, Some(explanation))))
  {
    InitialMessageIsInitial();
    var cs := [Some(Monitor.InitialMessage)];
    assert cs[0].Some? && Contains(cs[0].value, InitialWord);
    assert AnyInitial(cs);
  }
}
