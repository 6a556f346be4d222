/** What the snapshot detail panel shows, shared by its two versions: the kinds
    a change line is sorted into, the snapshot record the panel receives, the
    views it renders, and how the backend's own change lines are classified. */
module Snapshots {
  import opened Util
  import opened Json
  import opened Text
  import Monitor

  /** The four icon/colour classes of a change line. */
  datatype ChangeKind = CreatedKind | ModifiedKind | DeletedKind | InfoKind

  function ColorClass(kind: ChangeKind): string
  {
    match kind
    case CreatedKind => "text-green-300"
    case ModifiedKind => "text-yellow-300"
    case DeletedKind => "text-red-300"
    case InfoKind => "text-sky-300"
  }

  /** One rendered `<li>`: its kind, its colour class and the text it shows. */
  datatype ChangeItem = ChangeItem(kind: ChangeKind, colorClass: string, text: Option<string>)

  /** A snapshot as the panel receives it. `previousConfig` is `None` when the
      field is missing (`undefined`) and `Some(JNull)` when it is `null`;
      `changes` is `None` when missing or `null`, and an element is `None` when it
      is `null`. */
  datatype Snapshot = Snapshot(
    previousConfig: Option<Json>,
    changes: Option<seq<Option<string>>>,
    explanation: Option<string>)

  /** The part below the header: the initial snapshot's explanation box, the list
      of changes (with the explanation when there is one), or "no changes". */
  datatype Body =
    | Initial(boxShown: bool, explanation: Option<string>)
    | ChangeList(items: seq<ChangeItem>, explanation: Option<string>)
    | NoChanges

  /** A selected snapshot: whether the diff button is offered, and the body. */
  datatype Detail = Detail(showDiffButton: bool, body: Body)

  datatype View = Loading | ErrorView(message: string) | NoSelection | Content(detail: Detail)

  const CreatedWord: string := "נוצרה"
  const ModifiedWord: string := "עודכנה"
  const DeletedWord: string := "נמחקה"
  const InitialWord: string := "Initial configuration"

  /** The keyword tests of `ChangeItem` on the lower-cased text, in order; the
      two versions differ only in the English word for a creation. */
  function KeywordKind(lower: string, createdWord: string): (kind: ChangeKind)
    ensures kind == CreatedKind <==> Contains(lower, createdWord) || Contains(lower, CreatedWord)
    ensures kind == ModifiedKind <==>
      !(Contains(lower, createdWord) || Contains(lower, CreatedWord)) &&
      (Contains(lower, "modified") || Contains(lower, ModifiedWord))
    ensures kind == DeletedKind <==>
      !(Contains(lower, createdWord) || Contains(lower, CreatedWord)) &&
      !(Contains(lower, "modified") || Contains(lower, ModifiedWord)) &&
      (Contains(lower, "deleted") || Contains(lower, DeletedWord))
    ensures kind == InfoKind <==>
      !(Contains(lower, createdWord) || Contains(lower, CreatedWord)) &&
      !(Contains(lower, "modified") || Contains(lower, ModifiedWord)) &&
      !(Contains(lower, "deleted") || Contains(lower, DeletedWord))
  {
    if Contains(lower, createdWord) || Contains(lower, CreatedWord) then CreatedKind
    else if Contains(lower, "modified") || Contains(lower, ModifiedWord) then ModifiedKind
    else if Contains(lower, "deleted") || Contains(lower, DeletedWord) then DeletedKind
    else InfoKind
  }

  /** The text an explanation section shows: the explanation when it is a
      non-empty string (JavaScript truthiness), nothing otherwise. */
  function ShownExplanation(explanation: Option<string>): (shown: Option<string>)
    ensures shown.Some? <==> explanation.Some? && explanation.value != ""
    ensures shown.Some? ==> shown == explanation
  {
    if explanation.Some? && explanation.value != "" then explanation else None
  }

  // ---------------------------------------------------------------------------
  // The backend's change lines
  // ---------------------------------------------------------------------------

  /** The kind a backend change line stands for. */
  function KindOf(c: Monitor.PolicyChange): ChangeKind
  {
    match c
    case Created(_, _) => CreatedKind
    case Modified(_, _) => ModifiedKind
    case Deleted(_, _) => DeletedKind
  }

  function Prefix(c: Monitor.PolicyChange): (p: string)
    ensures Monitor.Message(c) == p + c.name + "'"
  {
    match c
    case Created(_, _) => Monitor.CreatedPrefix
    case Modified(_, _) => Monitor.ModifiedPrefix
    case Deleted(_, _) => Monitor.DeletedPrefix
  }

  /** The Hebrew keyword each backend prefix carries. */
  function Keyword(c: Monitor.PolicyChange): string
  {
    match c
    case Created(_, _) => CreatedWord
    case Modified(_, _) => ModifiedWord
    case Deleted(_, _) => DeletedWord
  }

  /** Lower-casing a backend line changes only the policy name. */
  lemma LowerMessage(c: Monitor.PolicyChange)
    ensures Lower(Monitor.Message(c)) == Prefix(c) + Lower(c.name) + "'"
  {
    var p := Prefix(c);
    assert NoCapitals(p);
    LowerOfNoCapitals(p);
    LowerAppend(p, c.name);
    LowerAppend(p + c.name, "'");
    assert Lower("'") == "'";
  }

  /** The word "policy" that opens every backend line. */
  const PolicyWord: string := "מדיניות "

  /** Every backend prefix is the word "policy", the keyword, and `: '`. */
  lemma PrefixShape(c: Monitor.PolicyChange)
    ensures Prefix(c) == PolicyWord + Keyword(c) + ": '"
  {
  }

  /** The lower-cased backend line contains its prefix's Hebrew keyword. */
  lemma MessageContainsKeyword(c: Monitor.PolicyChange)
    ensures Contains(Lower(Monitor.Message(c)), Keyword(c))
  {
    LowerMessage(c);
    PrefixShape(c);
    ContainsInPrefix(Prefix(c), PolicyWord, Keyword(c), ": '", Lower(c.name), "'");
  }

  /** Whatever the English keyword, the keyword tests never show a backend line as
      information: a creation is always shown as created, a modification as
      created or modified. */
  lemma BackendLineKind(c: Monitor.PolicyChange, createdWord: string)
    ensures var kind := KeywordKind(Lower(Monitor.Message(c)), createdWord);
      kind != InfoKind &&
      (c.Created? ==> kind == CreatedKind) &&
      (c.Modified? ==> kind == CreatedKind || kind == ModifiedKind)
  {
    MessageContainsKeyword(c);
  }

  /** The evidently intended classification of a line: a backend prefix decides
      the kind; only other lines fall back to the keyword tests. */
  function PrefixKind(change: string): (kind: Option<ChangeKind>)
  {
    if StartsWith(change, Monitor.CreatedPrefix) then Some(CreatedKind)
    else if StartsWith(change, Monitor.ModifiedPrefix) then Some(ModifiedKind)
    else if StartsWith(change, Monitor.DeletedPrefix) then Some(DeletedKind)
    else None
  }

  /** Every backend line is recognised by its own prefix. */
  lemma PrefixKindOfMessage(c: Monitor.PolicyChange)
    ensures PrefixKind(Monitor.Message(c)) == Some(KindOf(c))
  {
    var m := Monitor.Message(c);
    assert m[..|Prefix(c)|] == Prefix(c);
    assert m[8] == Prefix(c)[8];
  }

  /** The backend's first-run line carries the initial-configuration marker. */
  lemma InitialMessageIsInitial()
    ensures Contains(Monitor.InitialMessage, InitialWord)
  {
    StartContained(Monitor.InitialMessage, InitialWord, " of Conditional Access Policies captured.");
  }

  lemma StartContained(s: string, t: string, rest: string)
    requires s == t + rest
    ensures Contains(s, t)
  {
    assert s[..|t|] == t;
  }
}
