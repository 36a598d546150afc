/**
 * The question-list editor (components/QuestionEditor.tsx): while editing,
 * the questions are rows with an id handed out by a counter that only grows;
 * rows are edited and removed by id, appended, and moved by drag and drop,
 * and saving hands back the texts.
 */
module QuestionEditing {
  import opened Outcomes

  /** One editable row. */
  datatype EditableQuestion = EditableQuestion(id: nat, text: string)

  /** No two rows share an id. */
  ghost predicate UniqueIds(rows: seq<EditableQuestion>) {
    forall i, j :: 0 <= i < j < |rows| ==> rows[i].id != rows[j].id
  }

  /** Every id is below `bound`, so `bound` and anything above it is unused. */
  ghost predicate IdsBelow(rows: seq<EditableQuestion>, bound: nat) {
    forall i :: 0 <= i < |rows| ==> rows[i].id < bound
  }

  /** The texts of the rows, in row order. */
  function Texts(rows: seq<EditableQuestion>): (texts: seq<string>)
    ensures |texts| == |rows|
    ensures forall i :: 0 <= i < |rows| ==> texts[i] == rows[i].text
  {
    if rows == [] then [] else [rows[0].text] + Texts(rows[1..])
  }

  /** The rows with the text of every row carrying `id` replaced by `value`. */
  function WithText(rows: seq<EditableQuestion>, id: nat, value: string): (r: seq<EditableQuestion>)
    ensures |r| == |rows|
    ensures forall i :: 0 <= i < |rows| ==>
      r[i] == if rows[i].id == id then EditableQuestion(id, value) else rows[i]
  {
    seq(|rows|, i requires 0 <= i < |rows| =>
      if rows[i].id == id then rows[i].(text := value) else rows[i])
  }

  /** The rows without those carrying `id`. */
  function WithoutId(rows: seq<EditableQuestion>, id: nat): (r: seq<EditableQuestion>)
    ensures |r| <= |rows|
    ensures forall x :: x in r <==> x in rows && x.id != id
    ensures (forall i :: 0 <= i < |rows| ==> rows[i].id != id) ==> r == rows
  {
    if rows == [] then []
    else if rows[0].id == id then WithoutId(rows[1..], id)
    else [rows[0]] + WithoutId(rows[1..], id)
  }

  /** Removing distributes over concatenation: the kept rows stay in their order. */
  lemma {:induction false} WithoutIdConcat(a: seq<EditableQuestion>, b: seq<EditableQuestion>, id: nat)
    ensures WithoutId(a + b, id) == WithoutId(a, id) + WithoutId(b, id)
  {
    if a != [] {
      assert (a + b)[1..] == a[1..] + b;
      WithoutIdConcat(a[1..], b, id);
    } else {
      assert a + b == b;
    }
  }

  /** A row whose id is not among the others' can be put in front without clashing. */
  lemma UniqueCons(x: EditableQuestion, rows: seq<EditableQuestion>)
    requires UniqueIds(rows)
    requires forall y :: y in rows ==> y.id != x.id
    ensures UniqueIds([x] + rows)
  {
    var s := [x] + rows;
    forall i, j | 0 <= i < j < |s| ensures s[i].id != s[j].id {
      assert s[j] == rows[j - 1];
      if i > 0 { assert s[i] == rows[i - 1]; }
    }
  }

  /** Removing rows keeps the ids unique. */
  lemma {:induction false} WithoutIdUnique(rows: seq<EditableQuestion>, id: nat)
    requires UniqueIds(rows)
    ensures UniqueIds(WithoutId(rows, id))
  {
    if rows != [] {
      WithoutIdUnique(rows[1..], id);
      if rows[0].id != id {
        forall y | y in WithoutId(rows[1..], id) ensures y.id != rows[0].id {
          var k :| 0 <= k < |rows[1..]| && rows[1..][k] == y;
          assert rows[k + 1] == y;
        }
        UniqueCons(rows[0], WithoutId(rows[1..], id));
      }
    }
  }

  /** `s.splice(i, 1)`: `s` without its element at `i`. */
  function RemoveAt<T>(s: seq<T>, i: nat): (r: seq<T>)
    requires i < |s|
    ensures |r| == |s| - 1
    ensures forall k :: 0 <= k < |r| ==> r[k] == if k < i then s[k] else s[k + 1]
  {
    s[..i] + s[i + 1..]
  }

  /** `s.splice(i, 0, x)`: `s` with `x` placed at `i`. */
  function InsertAt<T>(s: seq<T>, i: nat, x: T): (r: seq<T>)
    requires i <= |s|
    ensures |r| == |s| + 1 && r[i] == x
    ensures forall k :: 0 <= k < |s| ==> s[k] == if k < i then r[k] else r[k + 1]
    ensures RemoveAt(r, i) == s
  {
    var r := s[..i] + [x] + s[i..];
    assert RemoveAt(r, i) == s;
    r
  }

  /**
   * The row order after dragging the row at `from` onto position `to`: the
   * dragged row lands at `to`, the others keep their relative order, and the
   * result is a rearrangement of the same rows.
   */
  function Move<T>(s: seq<T>, from: nat, to: nat): (r: seq<T>)
    requires from < |s| && to < |s|
    ensures |r| == |s|
    ensures r[to] == s[from]
    ensures RemoveAt(r, to) == RemoveAt(s, from)
    ensures multiset(r) == multiset(s)
  {
    var rest := RemoveAt(s, from);
    calc {
      multiset(s);
      { assert s == s[..from] + [s[from]] + s[from + 1..]; }
      multiset(rest) + multiset{s[from]};
    }
    var r := InsertAt(rest, to, s[from]);
    calc {
      multiset(r);
      { assert r == rest[..to] + [s[from]] + rest[to..]; }
      multiset(rest[..to] + rest[to..]) + multiset{s[from]};
      { assert rest[..to] + rest[to..] == rest; }
      multiset(s);
    }
    r
  }

  /** Cutting a row out keeps the ids unique, and none of the others carries its id. */
  lemma RemoveAtUnique(rows: seq<EditableQuestion>, i: nat)
    requires i < |rows| && UniqueIds(rows)
    ensures UniqueIds(RemoveAt(rows, i))
    ensures forall k :: 0 <= k < |rows| - 1 ==> RemoveAt(rows, i)[k].id != rows[i].id
  {
    var r := RemoveAt(rows, i);
    forall a, b | 0 <= a < b < |r| ensures r[a].id != r[b].id {
      assert r[a] == rows[if a < i then a else a + 1];
      assert r[b] == rows[if b < i then b else b + 1];
    }
    forall k | 0 <= k < |r| ensures r[k].id != rows[i].id {
      assert r[k] == rows[if k < i then k else k + 1];
    }
  }

  /** Placing a row whose id no other row carries keeps the ids unique. */
  lemma InsertAtUnique(rows: seq<EditableQuestion>, i: nat, x: EditableQuestion)
    requires i <= |rows| && UniqueIds(rows)
    requires forall k :: 0 <= k < |rows| ==> rows[k].id != x.id
    ensures UniqueIds(InsertAt(rows, i, x))
  {
    var r := InsertAt(rows, i, x);
    forall a, b | 0 <= a < b < |r| ensures r[a].id != r[b].id {
      if a == i {
        assert r[b] == rows[b - 1];
      } else if b == i {
        assert r[a] == rows[a];
      } else {
        var a', b' := if a < i then a else a - 1, if b < i then b else b - 1;
        assert r[a] == rows[a'] && r[b] == rows[b'] && a' < b';
      }
    }
  }

  /** Moving a row keeps the ids unique. */
  lemma MoveUnique(rows: seq<EditableQuestion>, from: nat, to: nat)
    requires from < |rows| && to < |rows|
    requires UniqueIds(rows)
    ensures UniqueIds(Move(rows, from, to))
  {
    RemoveAtUnique(rows, from);
    InsertAtUnique(RemoveAt(rows, from), to, rows[from]);
  }

  /** Moving a row keeps every id below a bound that all of them were below. */
  lemma MoveIdsBelow(rows: seq<EditableQuestion>, from: nat, to: nat, bound: nat)
    requires from < |rows| && to < |rows|
    requires IdsBelow(rows, bound)
    ensures IdsBelow(Move(rows, from, to), bound)
  {
    var r := Move(rows, from, to);
    forall k | 0 <= k < |r| ensures r[k].id < bound {
      assert r[k] in multiset(r);
      assert r[k] in multiset(rows);
      var j :| 0 <= j < |rows| && rows[j] == r[k];
    }
  }

  class QuestionEditor {
    var isEditing: bool
    var rows: seq<EditableQuestion>
    var draggedIndex: Option<nat>
    var dragOverIndex: Option<nat>
    /** The next id to hand out (`idCounter.current`). */
    var idCounter: nat

    /** Ids are unique and all below the counter, so the counter's value is always fresh. */
    ghost predicate Valid()
      reads this
    {
      UniqueIds(rows) && IdsBelow(rows, idCounter)
    }

    constructor ()
      ensures Valid()
      ensures !isEditing && rows == [] && idCounter == 0
      ensures draggedIndex == None && dragOverIndex == None
    {
      isEditing := false;
      rows := [];
      draggedIndex := None;
      dragOverIndex := None;
      idCounter := 0;
    }

    /**
     * The effect run whenever the stored questions change: outside editing,
     * the rows are rebuilt from them, one fresh id per question.
     */
    method SyncFromProps(questions: seq<string>)
      requires Valid()
      modifies this`rows, this`idCounter
      ensures Valid()
      ensures old(isEditing) ==> rows == old(rows) && idCounter == old(idCounter)
      ensures !old(isEditing) ==>
        && Texts(rows) == questions
        && idCounter == old(idCounter) + |questions|
        && forall i :: 0 <= i < |rows| ==> rows[i].id == old(idCounter) + i
    {
      if !isEditing {
        var built: seq<EditableQuestion> := [];
        var i := 0;
        while i < |questions|
          invariant 0 <= i <= |questions|
          invariant |built| == i && idCounter == old(idCounter) + i
          invariant forall k :: 0 <= k < i ==> built[k] == EditableQuestion(old(idCounter) + k, questions[k])
        {
          built := built + [EditableQuestion(idCounter, questions[i])];
          idCounter := idCounter + 1;
          i := i + 1;
        }
        rows := built;
      }
    }

    /** The "edit questions" button. */
    method StartEditing()
      modifies this`isEditing
      ensures isEditing
    {
      isEditing := true;
    }

    /** handleQuestionChange: only the rows with `id` get the new text. */
    method HandleQuestionChange(id: nat, value: string)
      requires Valid()
      modifies this`rows
      ensures Valid()
      ensures rows == WithText(old(rows), id, value)
    {
      rows := WithText(rows, id, value);
    }

    /** handleAddQuestion: one empty row with an id never used before. */
    method HandleAddQuestion()
      requires Valid()
      modifies this`rows, this`idCounter
      ensures Valid()
      ensures rows == old(rows) + [EditableQuestion(old(idCounter), "")]
      ensures forall i :: 0 <= i < |old(rows)| ==> old(rows)[i].id != old(idCounter)
      ensures idCounter > old(idCounter)
    {
      rows := rows + [EditableQuestion(idCounter, "")];
      idCounter := idCounter + 1;
    }

    /** handleRemoveQuestion: the rows with `id` disappear. */
    method HandleRemoveQuestion(id: nat)
      requires Valid()
      modifies this`rows
      ensures Valid()
      ensures rows == WithoutId(old(rows), id)
    {
      WithoutIdUnique(rows, id);
      rows := WithoutId(rows, id);
    }

    /** handleSave: the texts of all rows, blanks included, and editing ends. */
    method HandleSave() returns (saved: seq<string>)
      modifies this`isEditing
      ensures saved == Texts(rows)
      ensures !isEditing
    {
      saved := Texts(rows);
      isEditing := false;
    }

    method HandleDragStart(index: nat)
      modifies this`draggedIndex
      ensures draggedIndex == Some(index)
    {
      draggedIndex := Some(index);
    }

    /** handleDragOver: the hovered index is recorded unless it is the dragged one. */
    method HandleDragOver(index: nat)
      modifies this`dragOverIndex
      ensures dragOverIndex == if draggedIndex == Some(index) then old(dragOverIndex) else Some(index)
    {
      if draggedIndex != Some(index) {
        dragOverIndex := Some(index);
      }
    }

    method HandleDragLeave()
      modifies this`dragOverIndex
      ensures dragOverIndex == None
    {
      dragOverIndex := None;
    }

    /**
     * handleDrop: with no drag under way, or a drop onto the dragged row,
     * nothing changes; otherwise the dragged row is cut out and put back at
     * the drop position.
     */
    method HandleDrop(dropIndex: nat)
      requires Valid()
      requires draggedIndex.Some? && draggedIndex.value != dropIndex ==>
        draggedIndex.value < |rows| && dropIndex < |rows|
      modifies this`rows
      ensures Valid()
      ensures draggedIndex.None? || draggedIndex.value == dropIndex ==> rows == old(rows)
      ensures draggedIndex.Some? && draggedIndex.value != dropIndex ==>
        rows == Move(old(rows), draggedIndex.value, dropIndex)
    {
      if draggedIndex.None? || draggedIndex.value == dropIndex {
        return;
      }
      var from := draggedIndex.value;
      var draggedItem := rows[from];
      var newRows := rows;
      newRows := RemoveAt(newRows, from);
      newRows := InsertAt(newRows, dropIndex, draggedItem);
      assert newRows == Move(rows, from, dropIndex);
      MoveUnique(rows, from, dropIndex);
      MoveIdsBelow(rows, from, dropIndex, idCounter);
      rows := newRows;
    }

    /** handleDragEnd: no drag is under way any more. */
    method HandleDragEnd()
      modifies this`draggedIndex, this`dragOverIndex
      ensures draggedIndex == None && dragOverIndex == None
    {
      draggedIndex := None;
      dragOverIndex := None;
    }
  }
}
