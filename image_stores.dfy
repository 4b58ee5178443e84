/** In-memory stand-ins for the `images` and `classifications` tables. Only the accessors the
    upload and retrieval handlers call are modelled: create, find by id, find by owner and
    find by image. */
module ImageStores {

  import opened Tables
  import opened JsValues

  datatype ImageRow = ImageRow(id: nat, userId: nat, imagePath: string, createdAt: string)

  /** The values of the classification result column. */
  datatype Label = Normal | Abnormal | Melanoma

  datatype ClassificationRow = ClassificationRow(id: nat, imageId: nat, result: Label, confidence: JsValue)

  /** The rows of `rows` owned by `userId`, in table order: the selection by owner, kept
      apart from the order in which a listing presents it. */
  function OwnedBy(rows: seq<ImageRow>, userId: nat): (r: seq<ImageRow>)
    ensures forall x :: x in r <==> x in rows && x.userId == userId
    ensures |r| <= |rows|
  {
    if |rows| == 0 then []
    else
      var rest := OwnedBy(rows[1..], userId);
      assert forall x :: x in rows <==> x == rows[0] || x in rows[1..];
      if rows[0].userId == userId then [rows[0]] + rest else rest
  }

  /** Selecting owners commutes with concatenation: the selection of an earlier part of the
      table comes before that of a later one. */
  lemma {:induction false} OwnedByConcat(a: seq<ImageRow>, b: seq<ImageRow>, userId: nat)
    ensures OwnedBy(a + b, userId) == OwnedBy(a, userId) + OwnedBy(b, userId)
  {
    if |a| > 0 {
      assert (a + b)[1..] == a[1..] + b;
      OwnedByConcat(a[1..], b, userId);
    } else {
      assert a + b == b;
    }
  }

  /** Selecting from a table with one more row selects that row last when `userId` owns it and
      changes nothing otherwise. */
  lemma OwnedByAppend(rows: seq<ImageRow>, row: ImageRow, userId: nat)
    ensures OwnedBy(rows + [row], userId) == OwnedBy(rows, userId) + (if row.userId == userId then [row] else [])
  {
    OwnedByConcat(rows, [row], userId);
    assert [row][1..] == [];
  }

  function Reverse<T>(s: seq<T>): (r: seq<T>)
    ensures |r| == |s| && forall i :: 0 <= i < |s| ==> r[i] == s[|s| - 1 - i]
  {
    seq(|s|, i requires 0 <= i < |s| => s[|s| - 1 - i])
  }

  /** The user's images newest first (`ORDER BY upload_date DESC`). Upload dates are stamped by
      the database clock at insertion, so the newest row is the last one inserted. */
  function NewestFirst(rows: seq<ImageRow>, userId: nat): (r: seq<ImageRow>)
    ensures forall x :: x in r <==> x in rows && x.userId == userId
  {
    if |rows| == 0 then []
    else
      var last := rows[|rows| - 1];
      var rest := NewestFirst(rows[..|rows| - 1], userId);
      assert rows == rows[..|rows| - 1] + [last];
      if last.userId == userId then [last] + rest else rest
  }

  /** A new image of `userId` heads its listing, ahead of every earlier one; another user's new
      image changes nothing. */
  lemma NewestFirstAppend(rows: seq<ImageRow>, row: ImageRow, userId: nat)
    ensures NewestFirst(rows + [row], userId) == (if row.userId == userId then [row] else []) + NewestFirst(rows, userId)
  {
    assert (rows + [row])[..|rows|] == rows;
  }

  /** The listing is the owner's selection in table order, reversed. */
  lemma {:induction false} NewestFirstIsReversedSelection(rows: seq<ImageRow>, userId: nat)
    ensures NewestFirst(rows, userId) == Reverse(OwnedBy(rows, userId))
  {
    if |rows| > 0 {
      var init := rows[..|rows| - 1];
      var last := rows[|rows| - 1];
      assert rows == init + [last];
      NewestFirstIsReversedSelection(init, userId);
      OwnedByAppend(init, last, userId);
      if last.userId == userId {
        ReverseSnoc(OwnedBy(init, userId), last);
      } else {
        assert OwnedBy(init, userId) + [] == OwnedBy(init, userId);
      }
    }
  }

  lemma ReverseSnoc<T>(s: seq<T>, x: T)
    ensures Reverse(s + [x]) == [x] + Reverse(s)
  {
    var r := Reverse(s + [x]);
    assert r[0] == x;
    assert forall i :: 0 <= i < |s| ==> r[i + 1] == Reverse(s)[i];
  }

  class ImageStore {
    var rows: seq<ImageRow>
    var nextId: nat

    function Ids(): seq<nat>
      reads this
    {
      seq(|rows|, i requires 0 <= i < |rows| reads this => rows[i].id)
    }

    ghost predicate Valid()
      reads this
    {
      1 <= nextId && FreshIds(Ids(), nextId)
    }

    constructor ()
      ensures Valid() && rows == [] && nextId == 1
    {
      rows := [];
      nextId := 1;
    }

    /** Inserts an image row for `userId` and returns its id; `now` is the database clock. */
    method Create(userId: nat, imagePath: string, now: string) returns (id: nat)
      requires Valid()
      modifies this
      ensures Valid()
      ensures id == old(nextId) && nextId == id + 1
      ensures rows == old(rows) + [ImageRow(id, userId, imagePath, now)]
    {
      id := nextId;
      FreshIdsAppend(Ids(), nextId);
      rows := rows + [ImageRow(id, userId, imagePath, now)];
      nextId := nextId + 1;
      assert Ids() == old(Ids()) + [id];
    }

    function FindById(id: nat): (r: Option<ImageRow>)
      reads this
      ensures r.Some? ==> r.value in rows && r.value.id == id
      ensures r.None? <==> forall i :: 0 <= i < |rows| ==> rows[i].id != id
    {
      First(rows, (row: ImageRow) => row.id == id)
    }

    /** `findByUserId`: the user's images, newest first. */
    function FindByUserId(userId: nat): (r: seq<ImageRow>)
      reads this
      ensures forall x :: x in r <==> x in rows && x.userId == userId
      ensures r == Reverse(OwnedBy(rows, userId))
    {
      NewestFirstIsReversedSelection(rows, userId);
      NewestFirst(rows, userId)
    }
  }

  class ClassificationStore {
    var rows: seq<ClassificationRow>
    var nextId: nat

    function Ids(): seq<nat>
      reads this
    {
      seq(|rows|, i requires 0 <= i < |rows| reads this => rows[i].id)
    }

    ghost predicate Valid()
      reads this
    {
      1 <= nextId && FreshIds(Ids(), nextId)
    }

    constructor ()
      ensures Valid() && rows == [] && nextId == 1
    {
      rows := [];
      nextId := 1;
    }

    method Create(imageId: nat, result: Label, confidence: JsValue) returns (id: nat)
      requires Valid()
      modifies this
      ensures Valid()
      ensures id == old(nextId) && nextId == id + 1
      ensures rows == old(rows) + [ClassificationRow(id, imageId, result, confidence)]
    {
      id := nextId;
      FreshIdsAppend(Ids(), nextId);
      rows := rows + [ClassificationRow(id, imageId, result, confidence)];
      nextId := nextId + 1;
      assert Ids() == old(Ids()) + [id];
    }

    function FindByImageId(imageId: nat): (r: Option<ClassificationRow>)
      reads this
      ensures r.Some? ==> r.value in rows && r.value.imageId == imageId
      ensures r.None? <==> forall i :: 0 <= i < |rows| ==> rows[i].imageId != imageId
    {
      First(rows, (row: ClassificationRow) => row.imageId == imageId)
    }
  }
}
