/** The task records of the extended to-do app and the pure transformations
    its handlers apply to the ordered task list: the record built from an
    extraction result, `map`-based toggle and replace, `filter`-based delete,
    the completed-task filter and its point total, and the tag text of the edit
    dialog. The list order is the stored order, newest first. */
module TaskModel {
  import opened JsString

  datatype Option<T> = None | Some(value: T)

  /** One stored task. `priority` is whatever string was supplied; the app
      does not restrict it to "high", "medium" or "low". */
  datatype Task = Task(
    id: int,
    title: string,
    text: string,
    description: string,
    completed: bool,
    tags: seq<string>,
    priority: string,
    points: int)

  /** The fields of the JSON object returned by the extraction service.
      `None` is a missing key (or `null`). */
  datatype TaskFields = TaskFields(
    text: Option<string>,
    description: Option<string>,
    priority: Option<string>,
    tags: Option<seq<string>>,
    points: Option<int>)

  /** The outcome of `JSON.parse` on the service's response. */
  datatype Extraction = Parsed(fields: TaskFields) | ParseError

  const UntitledText: string := "Untitled Task"
  const DefaultPriority: string := "medium"

  // ---------------------------------------------------------------------------
  // Creating a record from an extraction result

  /** JavaScript `v || fallback` for a string: a missing value and "" are falsy. */
  function StringOr(v: Option<string>, fallback: string): (r: string)
    ensures v.Some? && v.value != "" ==> r == v.value
    ensures v.None? || v.value == "" ==> r == fallback
  {
    if v.Some? && v.value != "" then v.value else fallback
  }

  /** `v || fallback` is truthy exactly when one of its operands is. */
  lemma StringOrTruthy(v: Option<string>, fallback: string)
    ensures StringOr(v, fallback) != "" <==> (v.Some? && v.value != "") || fallback != ""
  {
  }

  /** JavaScript `v || 0` for a number: a missing value and 0 are falsy. Since
      the falsy 0 falls back to 0 itself, a present value is always kept. */
  function PointsOr(v: Option<int>): (r: int)
    ensures v.Some? ==> r == v.value
    ensures v.None? ==> r == 0
  {
    if v.Some? && v.value != 0 then v.value else 0
  }

  /** JavaScript `v || []` for an array: every array, even an empty one, is
      truthy, so a present array is kept and only a missing one becomes []. */
  function TagsOr(v: Option<seq<string>>): (r: seq<string>)
    ensures v.Some? ==> r == v.value
    ensures v.None? ==> r == []
  {
    if v.Some? then v.value else []
  }

  /** The label `Task ${n}`. */
  function PositionalTitle(n: nat): (t: string)
    ensures |t| > 5 && t[..5] == "Task "
  {
    "Task " + Decimal(n)
  }

  /** The label is "Task " followed by digits that read back as `n`. */
  lemma PositionalTitleReadsBack(n: nat)
    ensures |PositionalTitle(n)| > 5 && PositionalTitle(n)[..5] == "Task "
    ensures AllDigits(PositionalTitle(n)[5..]) && DecimalValue(PositionalTitle(n)[5..]) == n
  {
    DecimalRoundTrip(n);
    assert PositionalTitle(n)[5..] == Decimal(n);
  }

  /** Different positions get different labels. */
  lemma PositionalTitleInjective(m: nat, n: nat)
    requires PositionalTitle(m) == PositionalTitle(n)
    ensures m == n
  {
    PositionalTitleReadsBack(m);
    PositionalTitleReadsBack(n);
  }

  /** The record prepended after a successful extraction on a list of
      `listLength` tasks, stamped with the clock value `id`. A field the
      service left out or left falsy gets its default; the rest are taken
      exactly as supplied. */
  function NewTask(id: int, listLength: nat, f: TaskFields): (t: Task)
    ensures t.id == id && !t.completed
    ensures t.title == PositionalTitle(listLength + 1)
    ensures t.text != ""
    ensures f.text.Some? && f.text.value != "" ==> t.text == f.text.value
    ensures f.text.None? || f.text.value == "" ==> t.text == UntitledText
    ensures f.description.Some? ==> t.description == f.description.value
    ensures f.description.None? ==> t.description == ""
    ensures f.priority.Some? && f.priority.value != "" ==> t.priority == f.priority.value
    ensures f.priority.None? || f.priority.value == "" ==> t.priority == DefaultPriority
    ensures f.tags.Some? ==> t.tags == f.tags.value
    ensures f.tags.None? ==> t.tags == []
    ensures f.points.Some? ==> t.points == f.points.value
    ensures f.points.None? ==> t.points == 0
  {
    Task(
      id := id,
      title := PositionalTitle(listLength + 1),
      text := StringOr(f.text, UntitledText),
      description := StringOr(f.description, ""),
      completed := false,
      tags := TagsOr(f.tags),
      priority := StringOr(f.priority, DefaultPriority),
      points := PointsOr(f.points))
  }

  /** Extracting `{text: "Buy milk"}` into an empty list. */
  lemma DefaultingExample(id: int)
    ensures NewTask(id, 0, TaskFields(Some("Buy milk"), None, None, None, None))
         == Task(id, PositionalTitle(1), "Buy milk", "", false, [], "medium", 0)
  {
  }

  /** The list after successful extractions of `batch`, one after the other;
      each element holds the clock value and the extracted fields. */
  function CreateAll(tasks: seq<Task>, batch: seq<(int, TaskFields)>): seq<Task>
    decreases |batch|
  {
    if batch == [] then tasks
    else
      var prior := CreateAll(tasks, batch[..|batch| - 1]);
      var last := batch[|batch| - 1];
      [NewTask(last.0, |prior|, last.1)] + prior
  }

  lemma {:induction false} CreateAllLength(tasks: seq<Task>, batch: seq<(int, TaskFields)>)
    ensures |CreateAll(tasks, batch)| == |tasks| + |batch|
    ensures CreateAll(tasks, batch)[|batch|..] == tasks
    decreases |batch|
  {
    if batch != [] {
      var n := |batch| - 1;
      CreateAllLength(tasks, batch[..n]);
      var prior := CreateAll(tasks, batch[..n]);
      assert CreateAll(tasks, batch)[|batch|..] == prior[n..];
    }
  }

  /** The record at position `i` after a run of creations is the one created
      `i` steps before the last. */
  lemma {:induction false} CreateAllAt(tasks: seq<Task>, batch: seq<(int, TaskFields)>, i: nat)
    requires i < |batch|
    ensures |CreateAll(tasks, batch)| == |tasks| + |batch|
    ensures CreateAll(tasks, batch)[i]
        == NewTask(batch[|batch| - 1 - i].0, |tasks| + |batch| - 1 - i, batch[|batch| - 1 - i].1)
    decreases |batch|
  {
    var n := |batch| - 1;
    var earlier := batch[..n];
    CreateAllLength(tasks, batch);
    CreateAllLength(tasks, earlier);
    var prior := CreateAll(tasks, earlier);
    var r := CreateAll(tasks, batch);
    assert r == [NewTask(batch[n].0, |prior|, batch[n].1)] + prior;
    if i > 0 {
      CreateAllAt(tasks, earlier, i - 1);
      var k := n - i;
      assert earlier[|earlier| - 1 - (i - 1)] == batch[k];
      assert |tasks| + |earlier| - 1 - (i - 1) == |tasks| + k;
      assert r[i] == prior[i - 1];
    }
  }

  /** Creation order: after a run of creations the newest record comes first,
      each record carries the title of the position it was created at, and the
      original list follows unchanged. */
  lemma CreationOrder(tasks: seq<Task>, batch: seq<(int, TaskFields)>)
    ensures |CreateAll(tasks, batch)| == |tasks| + |batch|
    ensures CreateAll(tasks, batch)[|batch|..] == tasks
    ensures forall i | 0 <= i < |batch| ::
      CreateAll(tasks, batch)[i]
        == NewTask(batch[|batch| - 1 - i].0, |tasks| + |batch| - 1 - i, batch[|batch| - 1 - i].1)
  {
    CreateAllLength(tasks, batch);
    forall i | 0 <= i < |batch|
      ensures CreateAll(tasks, batch)[i]
        == NewTask(batch[|batch| - 1 - i].0, |tasks| + |batch| - 1 - i, batch[|batch| - 1 - i].1)
    {
      CreateAllAt(tasks, batch, i);
    }
  }

  // ---------------------------------------------------------------------------
  // Toggle, replace and delete by id

  /** Some record of `tasks` carries `id`. */
  predicate HasId(tasks: seq<Task>, id: int) {
    exists i | 0 <= i < |tasks| :: tasks[i].id == id
  }

  /** Number of records of `tasks` that carry `id`. */
  function CountId(tasks: seq<Task>, id: int): (n: nat)
    ensures n <= |tasks|
  {
    if tasks == [] then 0 else (if tasks[0].id == id then 1 else 0) + CountId(tasks[1..], id)
  }

  /** What toggling `id` does to one record: a record carrying `id` gets a
      copy with its completion flipped, any other record is kept. */
  function Flip(t: Task, id: int): Task {
    if t.id == id then t.(completed := !t.completed) else t
  }

  /** The list after toggling `id`: every record carrying `id` has its
      completion flipped and nothing else changed; every other record is kept
      as it was, at its position. */
  function Toggled(tasks: seq<Task>, id: int): (r: seq<Task>)
    ensures |r| == |tasks|
    ensures forall i | 0 <= i < |tasks| ::
      if tasks[i].id == id then r[i] == tasks[i].(completed := !tasks[i].completed)
      else r[i] == tasks[i]
  {
    if tasks == [] then []
    else
      var r := [Flip(tasks[0], id)] + Toggled(tasks[1..], id);
      assert forall i | 1 <= i < |tasks| :: r[i] == Toggled(tasks[1..], id)[i - 1];
      r
  }

  /** Toggling the same id twice restores the list. */
  lemma ToggledTwice(tasks: seq<Task>, id: int)
    ensures Toggled(Toggled(tasks, id), id) == tasks
  {
    var once := Toggled(tasks, id);
    var twice := Toggled(once, id);
    forall i | 0 <= i < |tasks| ensures twice[i] == tasks[i] {
      assert once[i].id == tasks[i].id;
    }
  }

  /** Toggling an id no record carries changes nothing. */
  lemma ToggledMissing(tasks: seq<Task>, id: int)
    requires !HasId(tasks, id)
    ensures Toggled(tasks, id) == tasks
  {
  }

  /** The list after saving `edited`: every record carrying `edited.id` is
      replaced by `edited` at its position, every other record is kept. */
  function Saved(tasks: seq<Task>, edited: Task): (r: seq<Task>)
    ensures |r| == |tasks|
    ensures forall i | 0 <= i < |tasks| ::
      r[i] == (if tasks[i].id == edited.id then edited else tasks[i])
  {
    if tasks == [] then []
    else
      var r := [if tasks[0].id == edited.id then edited else tasks[0]] + Saved(tasks[1..], edited);
      assert forall i | 1 <= i < |tasks| :: r[i] == Saved(tasks[1..], edited)[i - 1];
      r
  }

  /** Saving keeps every position's id, so tasks stay where they were. */
  lemma SavedKeepsIds(tasks: seq<Task>, edited: Task)
    ensures forall i | 0 <= i < |tasks| :: Saved(tasks, edited)[i].id == tasks[i].id
  {
  }

  /** Saving a record whose id no record carries changes nothing. */
  lemma SavedMissing(tasks: seq<Task>, edited: Task)
    requires !HasId(tasks, edited.id)
    ensures Saved(tasks, edited) == tasks
  {
  }

  lemma SavedIdempotent(tasks: seq<Task>, edited: Task)
    ensures Saved(Saved(tasks, edited), edited) == Saved(tasks, edited)
  {
  }

  /** `a` is `b` with some elements left out, the rest in their order. */
  predicate IsSubsequence<T(==)>(a: seq<T>, b: seq<T>) {
    if a == [] then true
    else if b == [] then false
    else if a[0] == b[0] then IsSubsequence(a[1..], b[1..])
    else IsSubsequence(a, b[1..])
  }

  /** The list after deleting `id`: exactly the records that do not carry
      `id`, in their original order. */
  function Removed(tasks: seq<Task>, id: int): (r: seq<Task>)
    ensures IsSubsequence(r, tasks)
    ensures forall t :: t in r <==> t in tasks && t.id != id
    ensures |r| == |tasks| - CountId(tasks, id)
  {
    if tasks == [] then []
    else
      var rest := Removed(tasks[1..], id);
      assert tasks == [tasks[0]] + tasks[1..];
      if tasks[0].id == id then
        assert rest != [] ==> rest[0] in rest && rest[0] != tasks[0];
        rest
      else
        var r := [tasks[0]] + rest;
        assert r[1..] == rest;
        r
  }

  /** Deleting an id no record carries changes nothing. */
  lemma {:induction false} RemovedMissing(tasks: seq<Task>, id: int)
    requires !HasId(tasks, id)
    ensures Removed(tasks, id) == tasks
  {
    if tasks != [] {
      assert !HasId(tasks[1..], id) by {
        forall i | 0 <= i < |tasks| - 1 ensures tasks[1..][i].id != id {
          assert tasks[1..][i] == tasks[i + 1];
        }
      }
      RemovedMissing(tasks[1..], id);
      assert tasks == [tasks[0]] + tasks[1..];
    }
  }

  /** Deleting twice is deleting once. */
  lemma RemovedIdempotent(tasks: seq<Task>, id: int)
    ensures Removed(Removed(tasks, id), id) == Removed(tasks, id)
  {
    var r := Removed(tasks, id);
    assert !HasId(r, id) by {
      forall i | 0 <= i < |r| ensures r[i].id != id {
        assert r[i] in r;
      }
    }
    RemovedMissing(r, id);
  }

  /** Toggling the records that are then deleted leaves no trace. */
  lemma {:induction false} RemovedAfterToggled(tasks: seq<Task>, id: int)
    ensures Removed(Toggled(tasks, id), id) == Removed(tasks, id)
  {
    if tasks != [] {
      RemovedAfterToggled(tasks[1..], id);
      var t := Toggled(tasks, id);
      assert t == [Flip(tasks[0], id)] + Toggled(tasks[1..], id);
      assert t[1..] == Toggled(tasks[1..], id);
    }
  }

  // ---------------------------------------------------------------------------
  // The achievements view

  /** Number of completed records of `tasks`, repeats included. */
  function CountCompleted(tasks: seq<Task>): (n: nat)
    ensures n <= |tasks|
  {
    if tasks == [] then 0 else (if tasks[0].completed then 1 else 0) + CountCompleted(tasks[1..])
  }

  /** The completed-task filter of the achievements view: exactly the
      completed records, in stored order, each as often as it is stored. */
  function CompletedTasks(tasks: seq<Task>): (r: seq<Task>)
    ensures IsSubsequence(r, tasks)
    ensures forall t :: t in r <==> t in tasks && t.completed
    ensures |r| == CountCompleted(tasks)
  {
    if tasks == [] then []
    else
      var rest := CompletedTasks(tasks[1..]);
      assert tasks == [tasks[0]] + tasks[1..];
      if tasks[0].completed then
        var r := [tasks[0]] + rest;
        assert r[1..] == rest;
        r
      else
        assert rest != [] ==> rest[0] in rest && rest[0] != tasks[0];
        rest
  }

  /** The sum of `points` taken left to right from 0, as the achievements
      view's reduction adds them. */
  function SumPoints(ts: seq<Task>): (sum: int)
    ensures (forall i | 0 <= i < |ts| :: ts[i].points >= 0) ==> sum >= 0
  {
    if ts == [] then 0 else SumPoints(ts[..|ts| - 1]) + ts[|ts| - 1].points
  }

  lemma {:induction false} SumPointsCons(t: Task, ts: seq<Task>)
    ensures SumPoints([t] + ts) == t.points + SumPoints(ts)
    decreases |ts|
  {
    if ts != [] {
      var s := [t] + ts;
      assert s[..|s| - 1] == [t] + ts[..|ts| - 1];
      SumPointsCons(t, ts[..|ts| - 1]);
    }
  }

  /** The points a list earns, stated record by record: a completed record
      contributes its points, an incomplete one nothing. */
  function EarnedPoints(tasks: seq<Task>): int {
    if tasks == [] then 0
    else (if tasks[0].completed then tasks[0].points else 0) + EarnedPoints(tasks[1..])
  }

  /** Total points earned: the sum of `points` over the completed records. */
  function TotalPoints(tasks: seq<Task>): (total: int)
    ensures total == EarnedPoints(tasks)
  {
    TotalPointsEarned(tasks);
    SumPoints(CompletedTasks(tasks))
  }

  lemma {:induction false} TotalPointsEarned(tasks: seq<Task>)
    ensures SumPoints(CompletedTasks(tasks)) == EarnedPoints(tasks)
  {
    if tasks != [] {
      TotalPointsEarned(tasks[1..]);
      if tasks[0].completed {
        SumPointsCons(tasks[0], CompletedTasks(tasks[1..]));
      }
    }
  }

  /** An empty or all-incomplete list has earned nothing. */
  lemma {:induction false} NothingCompletedNoPoints(tasks: seq<Task>)
    requires forall i | 0 <= i < |tasks| :: !tasks[i].completed
    ensures TotalPoints(tasks) == 0
    ensures CompletedTasks(tasks) == []
  {
    if tasks != [] {
      NothingCompletedNoPoints(tasks[1..]);
    }
  }

  /** With no negative points the total is never negative. */
  lemma {:induction false} TotalPointsNonNegative(tasks: seq<Task>)
    requires forall i | 0 <= i < |tasks| :: tasks[i].points >= 0
    ensures TotalPoints(tasks) >= 0
  {
    if tasks != [] {
      TotalPointsNonNegative(tasks[1..]);
    }
  }

  /** A freshly created record is incomplete, so creating it earns nothing. */
  lemma CreationKeepsTotal(tasks: seq<Task>, id: int, f: TaskFields)
    ensures TotalPoints([NewTask(id, |tasks|, f)] + tasks) == TotalPoints(tasks)
  {
    assert ([NewTask(id, |tasks|, f)] + tasks)[1..] == tasks;
  }

  /** Completed 5, open 100, completed 3: 8 points. */
  lemma AchievementExample(a: Task, b: Task, c: Task)
    requires a.completed && a.points == 5
    requires !b.completed && b.points == 100
    requires c.completed && c.points == 3
    ensures TotalPoints([a, b, c]) == 8
  {
    assert [a, b, c][1..] == [b, c];
    assert [b, c][1..] == [c];
    assert [c][1..] == [];
    assert EarnedPoints([c]) == 3;
    assert EarnedPoints([b, c]) == 3;
  }

  // ---------------------------------------------------------------------------
  // The edit dialog

  /** One `handleChange(field, value)` call of the edit dialog; the dialog
      edits only these five fields. */
  datatype FieldChange =
    | SetTitle(title: string)
    | SetText(text: string)
    | SetDescription(description: string)
    | SetTags(tags: seq<string>)
    | SetPriority(priority: string)

  /** The copy after one change: the named field takes the new value and every
      other field, id and completion and points included, is kept. */
  function Changed(t: Task, c: FieldChange): (r: Task)
    ensures r.id == t.id && r.completed == t.completed && r.points == t.points
    ensures r.title == (if c.SetTitle? then c.title else t.title)
    ensures r.text == (if c.SetText? then c.text else t.text)
    ensures r.description == (if c.SetDescription? then c.description else t.description)
    ensures r.tags == (if c.SetTags? then c.tags else t.tags)
    ensures r.priority == (if c.SetPriority? then c.priority else t.priority)
  {
    match c
    case SetTitle(v) => t.(title := v)
    case SetText(v) => t.(text := v)
    case SetDescription(v) => t.(description := v)
    case SetTags(v) => t.(tags := v)
    case SetPriority(v) => t.(priority := v)
  }

  /** The dialog's copy after the changes `cs`, in order. */
  function ApplyChanges(t: Task, cs: seq<FieldChange>): (r: Task)
    ensures r.id == t.id && r.completed == t.completed && r.points == t.points
    decreases |cs|
  {
    if cs == [] then t else ApplyChanges(Changed(t, cs[0]), cs[1..])
  }

  /** Editing a stored record and saving the copy puts the copy at every
      position of that id, and keeps every id and every other record. */
  lemma EditThenSave(tasks: seq<Task>, i: nat, cs: seq<FieldChange>)
    requires i < |tasks|
    ensures var e := ApplyChanges(tasks[i], cs);
      && Saved(tasks, e)[i] == e
      && (forall j | 0 <= j < |tasks| :: Saved(tasks, e)[j].id == tasks[j].id)
      && (forall j | 0 <= j < |tasks| && tasks[j].id != tasks[i].id :: Saved(tasks, e)[j] == tasks[j])
  {
  }

  /** The text the tags input shows: the tags joined with a comma and a space. */
  function TagsText(tags: seq<string>): (text: string)
    ensures tags == [] ==> text == ""
    ensures |tags| == 1 ==> text == tags[0]
  {
    Join(tags, ", ")
  }

  lemma NoCharInInfix(c: char, s: string, a: nat, b: nat)
    requires a <= b <= |s|
    requires c !in s
    ensures c !in s[a..b]
  {
  }

  /** The tags read from the tags input: one tag per comma-separated piece,
      in order and empty pieces kept, each trimmed, so none holds a comma or
      surrounding whitespace. */
  function ParseTags(input: string): (tags: seq<string>)
    ensures |tags| == CountChar(input, ',') + 1
    ensures forall i | 0 <= i < |tags| :: ',' !in tags[i] && Trimmed(tags[i])
    ensures forall i | 0 <= i < |tags| :: tags[i] == Trim(Split(input, ',')[i])
  {
    var pieces := Split(input, ',');
    TrimmedPieces(pieces);
    TrimEach(pieces)
  }

  function TrimEach(pieces: seq<string>): (r: seq<string>)
    ensures |r| == |pieces|
    ensures forall i | 0 <= i < |r| :: r[i] == Trim(pieces[i])
  {
    seq(|pieces|, i requires 0 <= i < |pieces| => Trim(pieces[i]))
  }

  /** Trimming comma-free pieces leaves them comma-free. */
  lemma TrimmedPieces(pieces: seq<string>)
    requires forall i | 0 <= i < |pieces| :: ',' !in pieces[i]
    ensures forall i | 0 <= i < |pieces| :: ',' !in Trim(pieces[i])
  {
    forall i | 0 <= i < |pieces| ensures ',' !in Trim(pieces[i]) {
      var p := pieces[i];
      var a := LeadingWhitespace(p);
      NoCharInInfix(',', p, a, a + |Trim(p)|);
    }
  }

  /** The comma-joined text of non-empty, comma-free tags splits at exactly
      the joints; every piece after the first keeps the joint's space. */
  lemma {:induction false} SplitTagsText(tags: seq<string>)
    requires tags != []
    requires forall i | 0 <= i < |tags| :: ',' !in tags[i]
    ensures |Split(TagsText(tags), ',')| == |tags|
    ensures Split(TagsText(tags), ',')[0] == tags[0]
    ensures forall i | 1 <= i < |tags| :: Split(TagsText(tags), ',')[i] == " " + tags[i]
    decreases |tags|
  {
    if |tags| == 1 {
      SplitWithoutSeparator(tags[0], ',');
    } else {
      var j := TagsText(tags[1..]);
      SplitTagsText(tags[1..]);
      var spaced := [' '] + j;
      assert TagsText(tags) == tags[0] + [','] + spaced;
      SplitAfterPiece(tags[0], spaced, ',');
      var inner := Split(j, ',');
      assert spaced[1..] == j;
      assert Split(spaced, ',') == [[' '] + inner[0]] + inner[1..];
      var whole := Split(TagsText(tags), ',');
      assert whole == [tags[0]] + Split(spaced, ',');
      forall i | 1 <= i < |tags| ensures whole[i] == " " + tags[i] {
        if i == 1 {
          assert whole[1] == [' '] + inner[0];
        } else {
          assert whole[i] == inner[i - 1];
          assert tags[1..][i - 1] == tags[i];
        }
      }
    }
  }

  /** Parsing the tags field's text gives the tags back, provided there is at
      least one tag and none holds a comma or surrounding whitespace. */
  lemma TagsRoundTrip(tags: seq<string>)
    requires tags != []
    requires forall i | 0 <= i < |tags| :: ',' !in tags[i] && Trimmed(tags[i])
    ensures ParseTags(TagsText(tags)) == tags
  {
    SplitTagsText(tags);
    var pieces := Split(TagsText(tags), ',');
    var parsed := ParseTags(TagsText(tags));
    forall i | 0 <= i < |tags| ensures parsed[i] == tags[i] {
      TrimOfTrimmed(tags[i]);
      if i > 0 {
        assert pieces[i] == [' '] + tags[i];
        TrimDropsLeadingWhitespace(' ', tags[i]);
      }
    }
  }

  /** An empty tag list shows as "" and that text parses to one empty tag. */
  lemma EmptyTagsReparse()
    ensures ParseTags(TagsText([])) == [""]
  {
    var text := TagsText([]);
    assert text == [];
    assert AllWhitespace(text);
    var tags := ParseTags(text);
    assert |tags| == 1 && tags[0] == Trim(text);
  }
}
