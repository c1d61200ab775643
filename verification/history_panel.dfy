/** The history side panel of the drawing page: how each history entry is
    described to the user, how the list of entries is rendered, and the rule
    that only an entry carrying a canvas snapshot can be clicked to restore. */
module HistoryPanel {
  import opened Wrappers

  /** The canvas snapshot, `toJSON()` of the drawing surface, kept as
      uninterpreted text. In the source it is an object, so a snapshot that
      is present is always truthy. That is why the click gate and the item
      styling test `Some?` and not JavaScript truthiness, even for an empty
      text. */
  type CanvasJson = string

  /** The action-specific payload of an entry, limited to the fields the
      panel reads. `objectType` is the payload's `type` field. */
  datatype Details = Details(
    objectType: Option<string>,
    count: Option<nat>,
    to: Option<string>,
    filename: Option<string>)

  /** One committed history entry. */
  datatype HistoryEntry = HistoryEntry(
    timestamp: string,
    action: string,
    objectId: Option<string>,
    details: Option<Details>,
    userId: string,
    canvasState: Option<CanvasJson>)

  /** The action kinds the panel has a dedicated text for. */
  const KnownActions: set<string> := {
    "canvas_initialized", "shape_created", "object_modified",
    "selection_created", "path_created", "shape_synced",
    "all_shapes_deleted", "shape_deleted", "active_element_changed",
    "image_uploaded", "undo_performed", "redo_performed", "state_restored"
  }

  /** Whether a JavaScript string value is truthy: present and not empty. */
  predicate Truthy(value: Option<string>) {
    value.Some? && value.value != ""
  }

  /** `value || fallback` for an optional string. */
  function OrElse(value: Option<string>, fallback: string): (r: string)
    ensures Truthy(value) ==> r == value.value && r != ""
    ensures !Truthy(value) ==> r == fallback
  {
    if Truthy(value) then value.value else fallback
  }

  // `entry.details?.field`: absent when the details themselves are absent.

  function TypeOf(e: HistoryEntry): (field: Option<string>) {
    if e.details.Some? then e.details.value.objectType else None
  }

  function CountOf(e: HistoryEntry): (field: Option<nat>) {
    if e.details.Some? then e.details.value.count else None
  }

  function ToOf(e: HistoryEntry): (field: Option<string>) {
    if e.details.Some? then e.details.value.to else None
  }

  function FilenameOf(e: HistoryEntry): (field: Option<string>) {
    if e.details.Some? then e.details.value.filename else None
  }

  /** `entry.details?.count || 0`: a missing count and a count of 0 both give 0. */
  function CountOrZero(e: HistoryEntry): (n: nat) {
    match CountOf(e)
    case Some(n) => n
    case None => 0
  }

  /** Decimal digit `d` as a character. */
  function DigitChar(d: nat): (c: char)
    requires d < 10
    ensures '0' <= c <= '9' && c as int - '0' as int == d
  {
    (d + '0' as int) as char
  }

  predicate IsDigit(c: char) {
    '0' <= c <= '9'
  }

  /** The text a template literal gives for a non-negative integer. */
  function NatToDecimal(n: nat): (s: string)
    ensures |s| >= 1
    ensures forall i :: 0 <= i < |s| ==> IsDigit(s[i])
    ensures s[0] == '0' ==> n == 0 && s == "0"
    decreases n
  {
    if n < 10 then [DigitChar(n)] else NatToDecimal(n / 10) + [DigitChar(n % 10)]
  }

  /** The number a string of decimal digits denotes. */
  function DecimalValue(s: string): (n: nat)
    requires forall i :: 0 <= i < |s| ==> IsDigit(s[i])
  {
    if s == [] then 0
    else
      assert IsDigit(s[|s| - 1]);
      DecimalValue(s[..|s| - 1]) * 10 + (s[|s| - 1] as int - '0' as int)
  }

  /** Reading back the decimal text of a number gives the number. */
  lemma {:induction false} DecimalRoundTrip(n: nat)
    ensures DecimalValue(NatToDecimal(n)) == n
    decreases n
  {
    var s := NatToDecimal(n);
    if n >= 10 {
      DecimalRoundTrip(n / 10);
      assert s[..|s| - 1] == NatToDecimal(n / 10);
    }
  }

  /** `action.replace(/_/g, " ")`: every underscore becomes a space. */
  function ReplaceUnderscores(s: string): (r: string)
    ensures |r| == |s|
    ensures forall i :: 0 <= i < |s| ==> r[i] == (if s[i] == '_' then ' ' else s[i])
    ensures '_' !in r
  {
    if s == [] then []
    else [if s[0] == '_' then ' ' else s[0]] + ReplaceUnderscores(s[1..])
  }

  /** Replacing twice is replacing once, and a string without underscores is
      left as it is. */
  lemma ReplaceUnderscoresIdempotent(s: string)
    ensures ReplaceUnderscores(ReplaceUnderscores(s)) == ReplaceUnderscores(s)
    ensures '_' !in s ==> ReplaceUnderscores(s) == s
  {
  }

  /** `getActionDescription`: the human-readable text of an entry. */
  function Description(e: HistoryEntry): (d: string)
    ensures e.action in KnownActions ==> d != ""
    ensures e.action !in KnownActions ==> d == ReplaceUnderscores(e.action)
  {
    match e.action
    case "canvas_initialized" => "Canvas created"
    case "shape_created" => "Created " + OrElse(TypeOf(e), "shape")
    case "object_modified" => "Modified " + OrElse(TypeOf(e), "object")
    case "selection_created" => "Selected object(s)"
    case "path_created" => "Drew freeform path"
    case "shape_synced" => "Updated " + OrElse(TypeOf(e), "shape")
    case "all_shapes_deleted" => "Cleared canvas (" + NatToDecimal(CountOrZero(e)) + " objects)"
    case "shape_deleted" => "Deleted shape"
    case "active_element_changed" => "Changed tool to " + OrElse(ToOf(e), "")
    case "image_uploaded" => "Uploaded image: " + OrElse(FilenameOf(e), "image")
    case "undo_performed" => "Undo"
    case "redo_performed" => "Redo"
    case "state_restored" => "Restored previous state"
    case _ => ReplaceUnderscores(e.action)
  }

  /** The action kinds without detail fields have fixed texts. */
  lemma FixedDescriptions(e: HistoryEntry)
    ensures e.action == "canvas_initialized" ==> Description(e) == "Canvas created"
    ensures e.action == "selection_created" ==> Description(e) == "Selected object(s)"
    ensures e.action == "path_created" ==> Description(e) == "Drew freeform path"
    ensures e.action == "shape_deleted" ==> Description(e) == "Deleted shape"
    ensures e.action == "undo_performed" ==> Description(e) == "Undo"
    ensures e.action == "redo_performed" ==> Description(e) == "Redo"
    ensures e.action == "state_restored" ==> Description(e) == "Restored previous state"
  {
  }

  /** Shape kinds: the payload's `type` follows the verb when it is a non-empty
      string; otherwise a generic noun stands in, and a missing payload, a
      missing `type` and an empty `type` all read the same. */
  lemma TypedDescriptions(e: HistoryEntry)
    ensures e.action == "shape_created" ==>
      Description(e) == if Truthy(TypeOf(e)) then "Created " + TypeOf(e).value else "Created shape"
    ensures e.action == "object_modified" ==>
      Description(e) == if Truthy(TypeOf(e)) then "Modified " + TypeOf(e).value else "Modified object"
    ensures e.action == "shape_synced" ==>
      Description(e) == if Truthy(TypeOf(e)) then "Updated " + TypeOf(e).value else "Updated shape"
  {
  }

  /** A tool change names the new tool, or nothing; an upload names the file,
      or "image". */
  lemma ToolAndUploadDescriptions(e: HistoryEntry)
    ensures e.action == "active_element_changed" ==>
      Description(e) == "Changed tool to " + (if Truthy(ToOf(e)) then ToOf(e).value else "")
    ensures e.action == "image_uploaded" ==>
      Description(e) == "Uploaded image: " + (if Truthy(FilenameOf(e)) then FilenameOf(e).value else "image")
  {
  }

  /** Clearing the canvas shows the object count in decimal (0 when the count
      is missing), and the count can be read back from the text. */
  lemma ClearedCountRecoverable(e: HistoryEntry)
    requires e.action == "all_shapes_deleted"
    ensures var d := Description(e);
      && |d| > 25
      && d[..16] == "Cleared canvas ("
      && d[|d| - 9..] == " objects)"
      && d[16..|d| - 9] == NatToDecimal(CountOrZero(e))
      && (forall i :: 16 <= i < |d| - 9 ==> IsDigit(d[i]))
      && DecimalValue(d[16..|d| - 9]) == (if CountOf(e).Some? then CountOf(e).value else 0)
  {
    var digits := NatToDecimal(CountOrZero(e));
    var d := Description(e);
    assert d == "Cleared canvas (" + digits + " objects)";
    assert d[16..|d| - 9] == digits;
    DecimalRoundTrip(CountOrZero(e));
  }

  /** Any other action is shown as its own name with underscores turned into
      spaces: same length, no underscore left. */
  lemma UnknownActionDescription(e: HistoryEntry)
    requires e.action !in KnownActions
    ensures Description(e) == ReplaceUnderscores(e.action)
    ensures |Description(e)| == |e.action|
    ensures '_' !in Description(e)
  {
  }

  /** The description reads only the action and the details: never the
      timestamp, the object, the user or the snapshot. */
  lemma DescriptionIgnoresOtherFields(e1: HistoryEntry, e2: HistoryEntry)
    requires e1.action == e2.action && e1.details == e2.details
    ensures Description(e1) == Description(e2)
  {
  }

  /** The click handler of one list item: the entry handed to
      `onRestoreState`, or None when the entry has no snapshot. */
  function Click(e: HistoryEntry): (restored: Option<HistoryEntry>)
    ensures restored.Some? <==> e.canvasState.Some?
    ensures restored.Some? ==> restored.value == e
  {
    if e.canvasState.Some? then Some(e) else None
  }

  /** The entries handed to `onRestoreState` by a series of clicks on the
      list, each click given by the index of the item clicked. */
  function RestoreRequests(history: seq<HistoryEntry>, clicks: seq<nat>): (requests: seq<HistoryEntry>)
    requires forall k :: 0 <= k < |clicks| ==> clicks[k] < |history|
    ensures |requests| <= |clicks|
    ensures forall j :: 0 <= j < |requests| ==> requests[j] in history && requests[j].canvasState.Some?
    ensures (forall k :: 0 <= k < |clicks| ==> history[clicks[k]].canvasState.Some?) ==> |requests| == |clicks|
    ensures (forall k :: 0 <= k < |clicks| ==> history[clicks[k]].canvasState.None?) ==> requests == []
  {
    if clicks == [] then []
    else
      var first := match Click(history[clicks[0]]) case Some(entry) => [entry] case None => [];
      first + RestoreRequests(history, clicks[1..])
  }

  /** The requests of consecutive click series follow one another: clicks
      are handled one at a time, in order. */
  lemma {:induction false} RestoreRequestsAppend(history: seq<HistoryEntry>, c1: seq<nat>, c2: seq<nat>)
    requires forall k :: 0 <= k < |c1| ==> c1[k] < |history|
    requires forall k :: 0 <= k < |c2| ==> c2[k] < |history|
    ensures RestoreRequests(history, c1 + c2) == RestoreRequests(history, c1) + RestoreRequests(history, c2)
  {
    if c1 == [] {
      assert c1 + c2 == c2;
    } else {
      RestoreRequestsAppend(history, c1[1..], c2);
      assert (c1 + c2)[1..] == c1[1..] + c2;
    }
  }

  /** One click requests a restore of exactly the clicked entry when it has a
      snapshot, and nothing otherwise. */
  lemma RestoreRequestsSingle(history: seq<HistoryEntry>, k: nat)
    requires k < |history|
    ensures RestoreRequests(history, [k]) == (if history[k].canvasState.Some? then [history[k]] else [])
  {
    assert [k][1..] == [];
  }

  /** What one list item shows: the description, the raw timestamp (its
      locale formatting is not modelled) and whether it is styled and
      clickable as restorable. */
  datatype Item = Item(description: string, timestamp: string, restorable: bool)

  /** The panel body: a message when the history is empty, otherwise a list. */
  datatype Panel = NoHistory(message: string) | ItemList(items: seq<Item>)

  /** `history.map(...)`: one item per entry. */
  function RenderItems(history: seq<HistoryEntry>): (items: seq<Item>)
    ensures |items| == |history|
    ensures forall i :: 0 <= i < |history| ==>
      && items[i].description == Description(history[i])
      && items[i].timestamp == history[i].timestamp
      && (items[i].restorable <==> history[i].canvasState.Some?)
  {
    if history == [] then []
    else
      var item := Item(Description(history[0]), history[0].timestamp, history[0].canvasState.Some?);
      [item] + RenderItems(history[1..])
  }

  /** The panel body for a history: "No history yet" exactly when it is empty,
      otherwise one item per entry, in the same order. */
  function Render(history: seq<HistoryEntry>): (p: Panel)
    ensures p.NoHistory? <==> history == []
    ensures p.NoHistory? ==> p.message == "No history yet"
    ensures p.ItemList? ==> |p.items| == |history| && p.items == RenderItems(history)
  {
    if |history| == 0 then NoHistory("No history yet") else ItemList(RenderItems(history))
  }

  /** An item is shown as restorable exactly when clicking it requests a
      restore of its entry. */
  lemma RestorableMatchesClick(history: seq<HistoryEntry>, i: nat)
    requires i < |history|
    ensures Render(history).ItemList?
    ensures Render(history).items[i].restorable <==> Click(history[i]) == Some(history[i])
  {
  }
}
