/** The shared table of active-fire pixels for the processing window. Fires
    never copy pixels: each one is a filtered view of this table by the
    table's fire-id column. */
module PixelStore {
  import opened Wrappers
  import opened FireVector

  /** One detected pixel: projected location, detection time (half-day
      index), and the id of the fire it is assigned to. */
  datatype Pixel = Pixel(loc: Point, t: int, fid: Option<int>)

  /** The table itself; attribution writes its `fid` column in place. */
  class PixelTable {
    var rows: seq<Pixel>

    constructor (rows: seq<Pixel>)
      ensures this.rows == rows
    {
      this.rows := rows;
    }
  }

  /** The rows assigned to fire `id`, in table order. */
  function Owned(rows: seq<Pixel>, id: int): (r: seq<Pixel>)
    ensures forall p :: p in r <==> p in rows && p.fid == Some(id)
    ensures |r| <= |rows|
    decreases |rows|
  {
    if rows == [] then []
    else
      var last := rows[|rows| - 1];
      Owned(rows[..|rows| - 1], id) + (if last.fid == Some(id) then [last] else [])
  }

  /** Each row occurs in a fire's view as often as in the table when the row
      carries the fire's id, and not at all otherwise; so the view's length
      is the number of rows assigned to the fire. */
  lemma {:induction false} OwnedCount(rows: seq<Pixel>, id: int)
    ensures forall p :: multiset(Owned(rows, id))[p] == if p.fid == Some(id) then multiset(rows)[p] else 0
    decreases |rows|
  {
    if rows != [] {
      var n := |rows|;
      var init := rows[..n - 1];
      var last := rows[n - 1];
      OwnedCount(init, id);
      assert rows == init + [last];
      assert multiset(rows) == multiset(init) + multiset{last};
    }
  }

  /** The rows detected at time `t`, in order. */
  function AtTime(rows: seq<Pixel>, t: int): (r: seq<Pixel>)
    ensures forall p :: p in r <==> p in rows && p.t == t
    ensures |r| <= |rows|
    decreases |rows|
  {
    if rows == [] then []
    else (if rows[0].t == t then [rows[0]] else []) + AtTime(rows[1..], t)
  }

  /** The rows whose mask entry is true, in order. */
  function Masked(rows: seq<Pixel>, mask: seq<bool>): (r: seq<Pixel>)
    requires |mask| == |rows|
    ensures forall p :: p in r ==> p in rows
    ensures |r| <= |rows|
    decreases |rows|
  {
    if rows == [] then []
    else (if mask[0] then [rows[0]] else []) + Masked(rows[1..], mask[1..])
  }

  /** A row is selected exactly when it sits at a position the mask marks. */
  lemma {:induction false} MaskedSelects(rows: seq<Pixel>, mask: seq<bool>)
    requires |mask| == |rows|
    ensures forall p :: p in Masked(rows, mask) <==> exists i :: 0 <= i < |rows| && mask[i] && rows[i] == p
    decreases |rows|
  {
    if rows != [] {
      MaskedSelects(rows[1..], mask[1..]);
      forall p | p in Masked(rows, mask)
        ensures exists i :: 0 <= i < |rows| && mask[i] && rows[i] == p
      {
        if !(mask[0] && rows[0] == p) {
          var j :| 0 <= j < |rows| - 1 && mask[1..][j] && rows[1..][j] == p;
          assert mask[j + 1] && rows[j + 1] == p;
        }
      }
      forall p, i | 0 <= i < |rows| && mask[i] && rows[i] == p
        ensures p in Masked(rows, mask)
      {
        if i > 0 {
          assert mask[1..][i - 1] && rows[1..][i - 1] == p;
        }
      }
    }
  }

  /** The locations of some pixels, in order. */
  function Locs(ps: seq<Pixel>): (r: seq<Point>)
    ensures |r| == |ps| && forall i :: 0 <= i < |ps| ==> r[i] == ps[i].loc
  {
    seq(|ps|, i requires 0 <= i < |ps| => ps[i].loc)
  }

  /** The locations of the rows at positions `sel`, in the order of `sel`. */
  function LocsAt(rows: seq<Pixel>, sel: seq<nat>): (r: seq<Point>)
    requires forall j :: 0 <= j < |sel| ==> sel[j] < |rows|
    ensures |r| == |sel| && forall j :: 0 <= j < |sel| ==> r[j] == rows[sel[j]].loc
  {
    seq(|sel|, j requires 0 <= j < |sel| => rows[sel[j]].loc)
  }

  /** The table after writing fire id `id` into the rows at positions `sel`
      (the `fid` column only). */
  function Assign(rows: seq<Pixel>, sel: seq<nat>, id: int): seq<Pixel> {
    seq(|rows|, i requires 0 <= i < |rows| =>
      if i in sel then rows[i].(fid := Some(id)) else rows[i])
  }

  /** Writing a fire's id into some rows never shrinks that fire's pixel view. */
  lemma {:induction false} OwnerGains(rows: seq<Pixel>, sel: seq<nat>, id: int)
    ensures |Owned(Assign(rows, sel, id), id)| >= |Owned(rows, id)|
    decreases |rows|
  {
    if rows != [] {
      var n := |rows|;
      var a := Assign(rows, sel, id);
      assert a[..n - 1] == Assign(rows[..n - 1], sel, id);
      OwnerGains(rows[..n - 1], sel, id);
    }
  }

  /** Writing one fire's id into some rows never grows another fire's pixel view. */
  lemma {:induction false} OthersLose(rows: seq<Pixel>, sel: seq<nat>, id: int, other: int)
    requires other != id
    ensures |Owned(Assign(rows, sel, id), other)| <= |Owned(rows, other)|
    decreases |rows|
  {
    if rows != [] {
      var n := |rows|;
      var a := Assign(rows, sel, id);
      assert a[..n - 1] == Assign(rows[..n - 1], sel, id);
      OthersLose(rows[..n - 1], sel, id, other);
    }
  }
}
