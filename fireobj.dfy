/** The fire objects: `Fire`, one tracked fire event, and `Allfires`, the
    collection of all fire events at the current time step. */
module FireObj {
  import opened Wrappers
  import opened FireConsts
  import opened FireVector
  import opened PixelStore
  import opened Seqs
  import Lifecycle
  import Measures

  /** One fire event. Times are half-day indices; `hull` is recomputed only
      by explicit calls; `flinePrior` caches the last fire line found. */
  class Fire {
    var fid: int
    var mergeId: int
    const sensor: Sensor
    const store: PixelTable
    const cfg: Config
    const geo: Engine
    var t: int
    var tSt: int
    var tEd: int
    var hull: Option<Shape>
    var flinePrior: Option<Geom>
    var invalid: bool

    /** A new fire formed at time `t` from the table rows at positions
        `pixels`: those rows are assigned to it, and its hull is the engine's
        hull of their locations. */
    constructor (id: int, t: int, pixels: seq<nat>, store: PixelTable,
                 sensor: Sensor, cfg: Config, geo: Engine)
      requires forall j :: 0 <= j < |pixels| ==> pixels[j] < |store.rows|
      modifies store
      ensures this.store == store && this.sensor == sensor
      ensures this.cfg == cfg && this.geo == geo
      ensures fid == id && mergeId == id
      ensures this.t == t && tSt == t && tEd == t
      ensures store.rows == Assign(old(store.rows), pixels, id)
      ensures hull == geo.hullOf(LocsAt(old(store.rows), pixels), sensor)
      ensures flinePrior == None && !invalid
      ensures IsIgnition() && TInactive() == 0
      ensures cfg.maxOffDays >= 0 ==> IsActive()
      ensures forall j :: 0 <= j < |pixels| ==> store.rows[pixels[j]] in Pixels()
    {
      fid := id;
      mergeId := id;
      this.sensor := sensor;
      this.store := store;
      this.cfg := cfg;
      this.geo := geo;
      this.t := t;
      tSt := t;
      tEd := t;
      hull := geo.hullOf(LocsAt(store.rows, pixels), sensor);
      flinePrior := None;
      invalid := false;
      new;
      SetPixels(pixels);
    }

    function FireID(): int
      reads this`fid
    {
      fid
    }

    /** Half-days since the last new pixels. */
    function TInactive(): int
      reads this`t, this`tEd
    {
      t - tEd
    }

    predicate IsActive()
      reads this`invalid, this`t, this`tEd
    {
      Lifecycle.IsActive(invalid, TInactive(), cfg)
    }

    predicate IsDead()
      reads this`invalid, this`t, this`tEd
    {
      Lifecycle.IsDead(invalid, TInactive(), cfg)
    }

    predicate MayReactivate()
      reads this`invalid, this`t, this`tEd
    {
      Lifecycle.MayReactivate(invalid, TInactive(), cfg)
    }

    predicate IsIgnition()
      reads this`t, this`tSt
    {
      Lifecycle.IsIgnition(t, tSt)
    }

    /** The fire's pixels: the rows of the shared table carrying its id. */
    function Pixels(): (r: seq<Pixel>)
      reads this`fid, store`rows
      ensures forall p :: p in r <==> p in store.rows && p.fid == Some(fid)
      ensures |r| <= |store.rows|
    {
      Owned(store.rows, fid)
    }

    function NPixels(): nat
      reads this`fid, store`rows
    {
      |Pixels()|
    }

    /** The fire's pixels detected at the current step. */
    function NewPixels(): (r: seq<Pixel>)
      reads this`fid, this`t, store`rows
      ensures forall p :: p in r <==> p in store.rows && p.fid == Some(fid) && p.t == t
    {
      AtTime(Pixels(), t)
    }

    /** Assigns the table rows at positions `sel` to this fire. */
    method SetPixels(sel: seq<nat>)
      requires forall j :: 0 <= j < |sel| ==> sel[j] < |store.rows|
      modifies store
      ensures store.rows == Assign(old(store.rows), sel, fid)
      ensures forall j :: 0 <= j < |sel| ==> store.rows[sel[j]] in Pixels()
      ensures forall i :: 0 <= i < |store.rows| && i !in sel ==> store.rows[i] == old(store.rows[i])
      ensures NPixels() >= old(NPixels())
    {
      OwnerGains(store.rows, sel, fid);
      store.rows := Assign(store.rows, sel, fid);
    }

    /** Fire area in km2. */
    function Farea(): real
      reads this`hull, this`fid, store`rows
    {
      Measures.Farea(if hull.None? then None else Some(geo.area(hull.value)), NPixels(), cfg.areaVI)
    }

    /** Pixels per km2 of fire area. */
    function Pixden(): real
      reads this`hull, this`fid, store`rows
    {
      Measures.Pixden(NPixels(), Farea())
    }

    /** Dense and small enough to be taken for a static heat source (the
        density test multiplied out; see `Measures.StaticWithoutDivision`). */
    predicate IsStatic()
      reads this`hull, this`fid, store`rows
    {
      Measures.DenseAndSmall(NPixels(), Farea())
    }

    /** The multiplied-out test is the test FireObj.py applies to the computed density. */
    lemma StaticTest()
      ensures IsStatic() <==> Pixden() > Measures.StaticDensity && Farea() < Measures.StaticArea
    {
      Measures.StaticWithoutDivision(NPixels(), Farea());
    }

    /** The static-source test as FireObj.py writes it: density above
        `StaticDensity` and area below `StaticArea`. */
    method CheckStatic() returns (b: bool)
      ensures b == IsStatic()
    {
      var den := Pixden();
      var area := Farea();
      Measures.StaticWithoutDivision(NPixels(), area);
      b := Measures.IsStatic(den, area);
    }

    /** Perimeter length in km: the hull's length, or zero without a hull. */
    function Fperim(): (r: real)
      reads this`hull
      ensures hull.None? ==> r == 0.0
      ensures hull.Some? ==> r * 1000.0 == geo.length(hull.value)
    {
      if hull.None? then 0.0 else geo.length(hull.value) / 1000.0
    }

    /** The new pixels near the hull boundary. Empty without a hull, and when
        the engine's selection fails (its error is caught). */
    function FlinePixels(): (r: seq<Pixel>)
      reads this`hull, this`fid, this`t, store`rows
      ensures hull.None? ==> r == []
      ensures forall p :: p in r ==> p in NewPixels()
      ensures hull.Some? && geo.flineMask(Locs(NewPixels()), hull.value).None? ==> r == []
      ensures hull.Some? && geo.flineMask(Locs(NewPixels()), hull.value).Some? ==>
        var mask := geo.flineMask(Locs(NewPixels()), hull.value).value;
        && (|mask| != |NewPixels()| ==> r == [])
        && (|mask| == |NewPixels()| ==>
              forall p :: p in r <==> exists i :: 0 <= i < |mask| && mask[i] && NewPixels()[i] == p)
    {
      if hull.None? then []
      else
        var np := NewPixels();
        match geo.flineMask(Locs(np), hull.value)
        case None => []
        case Some(mask) =>
          if |mask| == |np| then
            MaskedSelects(np, mask);
            Masked(np, mask)
          else []
    }

    /** The active fire line. None when no new pixel lies near the boundary,
        and then the cache is left as it was; otherwise the line is also
        stored in `flinePrior`. */
    method Fline() returns (r: Option<Geom>)
      modifies this`flinePrior
      ensures r.None? <==> FlinePixels() == []
      ensures r.None? ==> flinePrior == old(flinePrior)
      ensures r.Some? ==> hull.Some? && flinePrior == r
      ensures r.Some? ==> r.value == FireLineOf(hull.value, Locs(FlinePixels()), cfg.viirsBuf, cfg.flBuffer)
    {
      var flp := FlinePixels();
      if |flp| == 0 {
        return None;
      }
      var line := FireLineOf(hull.value, Locs(flp), cfg.viirsBuf, cfg.flBuffer);
      flinePrior := Some(line);
      r := Some(line);
    }

    /** Length of the active fire line in km, zero when there is none. */
    method FlineLen() returns (km: real)
      modifies this`flinePrior
      ensures FlinePixels() == [] ==> km == 0.0 && flinePrior == old(flinePrior)
      ensures FlinePixels() != [] ==>
        (hull.Some? && flinePrior == Some(FireLineOf(hull.value, Locs(FlinePixels()), cfg.viirsBuf, cfg.flBuffer)))
      ensures FlinePixels() != [] ==> km * 1000.0 == geo.lineLength(flinePrior.value)
    {
      var line := Fline();
      km := if line.None? then 0.0 else geo.lineLength(line.value) / 1000.0;
    }

    /** Grows the hull by the hull of `newlocs`. FireObj.py calls `union` on
        both hulls, so both must be present. */
    method UpdateHull(newlocs: seq<Point>)
      requires hull.Some? && geo.hullOf(newlocs, sensor).Some?
      modifies this`hull
      ensures hull == Some(geo.union(old(hull).value, geo.hullOf(newlocs, sensor).value))
      ensures Sound(geo) ==> geo.within(old(hull).value, hull.value)
      ensures Sound(geo) ==> Farea() >= old(Farea())
    {
      var h := geo.hullOf(newlocs, sensor).value;
      var phull := hull.value;
      hull := Some(geo.union(phull, h));
      if Sound(geo) {
        Measures.FareaMonotone(geo.area(phull), geo.area(hull.value), NPixels(), cfg.areaVI);
      }
    }
  }

  /** The derived views of the collection, each a filter on one fire. */
  datatype View = ActiveView | SleeperView | DeadView | ValidView | StaticView

  /** Whether fire `f` belongs to view `v`. The dead view is "neither active
      nor a sleeper"; the static view is the active fires that the
      static-source filter invalidates. */
  predicate InView(f: Fire, v: View)
    reads f, f.store
  {
    match v
    case ActiveView => f.IsActive()
    case SleeperView => f.MayReactivate()
    case DeadView => !(f.IsActive() || f.MayReactivate())
    case ValidView => !f.invalid
    case StaticView => f.IsActive() && f.IsStatic()
  }

  /** Collects the fires named by `keep` under the dense keys `0..|keep|-1`
      in that order, setting each one's id to its new key; `mapping` pairs
      each old key with its new one. No other fire changes. */
  method Rekey(fs: map<int, Fire>, keep: seq<int>) returns (newfires: map<int, Fire>, mapping: seq<(int, int)>)
    requires Distinct(keep) && forall j :: 0 <= j < |keep| ==> keep[j] in fs
    requires forall a, b :: a in fs && b in fs && a != b ==> fs[a] != fs[b]
    modifies fs.Values`fid
    ensures forall j :: j in newfires <==> 0 <= j < |keep|
    ensures forall j :: 0 <= j < |keep| ==> newfires[j] == fs[keep[j]] && newfires[j].fid == j
    ensures forall k :: k in fs && k !in keep ==> fs[k].fid == old(fs[k].fid)
    ensures |mapping| == |keep| && forall j :: 0 <= j < |keep| ==> mapping[j] == (keep[j], j)
  {
    newfires := map[];
    mapping := [];
    var i := 0;
    while i < |keep|
      invariant 0 <= i <= |keep|
      invariant forall j :: j in newfires <==> 0 <= j < i
      invariant forall j :: 0 <= j < i ==> newfires[j] == fs[keep[j]] && newfires[j].fid == j
      invariant forall k :: k in fs && k !in keep[..i] ==> fs[k].fid == old(fs[k].fid)
      invariant |mapping| == i && forall j :: 0 <= j < i ==> mapping[j] == (keep[j], j)
    {
      var fid := keep[i];
      var f := fs[fid];
      assert forall j :: 0 <= j < i ==> keep[j] != fid;
      newfires := newfires[i := f];
      f.fid := i;
      mapping := mapping + [(fid, i)];
      assert keep[..i + 1] == keep[..i] + [fid];
      i := i + 1;
    }
  }

  /** All fire events at the current time step. `fires` maps fire ids to
      fires and `order` lists its keys in insertion order (Python dicts keep
      it); the four `fids*` lists record the ids changed at this step;
      `heritages` records merges as (source, target) pairs. */
  class Allfires {
    var t: int
    var fires: map<int, Fire>
    var order: seq<int>
    var fidsExpanded: seq<int>
    var fidsNew: seq<int>
    var fidsMerged: seq<int>
    var fidsInvalid: seq<int>
    var heritages: seq<(int, int)>
    var idDict: seq<(int, int)>

    /** The pixel tables the member fires read. */
    ghost function Stores(): set<PixelTable>
      reads this, fires.Values
    {
      set f | f in fires.Values :: f.store
    }

    /** Keys are listed once each, in `order`, and every fire carries the id
        it is stored under (so no fire is stored under two ids). */
    ghost predicate Valid()
      reads this, fires.Values
    {
      && Distinct(order)
      && (forall k :: k in fires <==> k in order)
      && (forall k | k in fires :: fires[k].fid == k)
    }

    constructor (t: int)
      ensures Valid() && this.t == t
      ensures fires == map[] && order == []
      ensures fidsExpanded == [] && fidsNew == [] && fidsMerged == [] && fidsInvalid == []
      ensures heritages == [] && idDict == []
    {
      this.t := t;
      fires := map[];
      order := [];
      fidsExpanded := [];
      fidsNew := [];
      fidsMerged := [];
      fidsInvalid := [];
      heritages := [];
      idDict := [];
    }

    /** The ids of the fires in view `v`. */
    function ViewIds(v: View): (r: set<int>)
      reads this, fires.Values, Stores()
      ensures forall k :: k in r <==> k in fires && InView(fires[k], v)
    {
      set k | k in fires && InView(fires[k], v)
    }

    function Fids(): seq<int>
      reads this
    {
      order
    }

    function NumberOfFires(): nat
      reads this
    {
      |fires|
    }

    function FidsActive(): seq<int>
      reads this, fires.Values, Stores()
    {
      Filter(order, ViewIds(ActiveView))
    }

    function FidsSleeper(): seq<int>
      reads this, fires.Values, Stores()
    {
      Filter(order, ViewIds(SleeperView))
    }

    function FidsDead(): seq<int>
      reads this, fires.Values, Stores()
    {
      Filter(order, ViewIds(DeadView))
    }

    function FidsValid(): seq<int>
      reads this, fires.Values, Stores()
    {
      Filter(order, ViewIds(ValidView))
    }

    /** The active fires that look like static sources. */
    function FidsStatic(): seq<int>
      reads this, fires.Values, Stores()
    {
      Filter(order, ViewIds(StaticView))
    }

    /** The fires kept across a year boundary: active ones, then sleepers. */
    function FidsKeep(): seq<int>
      reads this, fires.Values, Stores()
    {
      FidsActive() + FidsSleeper()
    }

    function NumberOfActivefires(): nat
      reads this, fires.Values, Stores()
    {
      |FidsActive()|
    }

    function NumberOfSleeper(): nat
      reads this, fires.Values, Stores()
    {
      |FidsSleeper()|
    }

    function NumberOfValidfires(): nat
      reads this, fires.Values, Stores()
    {
      |FidsValid()|
    }

    function ActiveFires(): map<int, Fire>
      reads this, fires.Values
    {
      map k | k in fires && fires[k].IsActive() :: fires[k]
    }

    function MayActiveFires(): map<int, Fire>
      reads this, fires.Values
    {
      map k | k in fires && (fires[k].IsActive() || fires[k].MayReactivate()) :: fires[k]
    }

    function DeadFires(): map<int, Fire>
      reads this, fires.Values
    {
      map k | k in fires && !(fires[k].IsActive() || fires[k].MayReactivate()) :: fires[k]
    }

    function ValidFires(): map<int, Fire>
      reads this, fires.Values
    {
      map k | k in fires && !fires[k].invalid :: fires[k]
    }

    /** The ids changed at this step in any way. */
    function FidsUpdated(): (r: set<int>)
      reads this
      ensures forall k :: k in r <==> k in fidsExpanded || k in fidsNew || k in fidsMerged || k in fidsInvalid
    {
      set k | k in fidsExpanded + fidsNew + fidsMerged + fidsInvalid
    }

    /** The ids of fires newly formed or expanded at this step, sorted, once each. */
    function FidsNe(): (r: seq<int>)
      reads this
      ensures StrictlyIncreasing(r) && Distinct(r)
      ensures forall k :: k in r <==> k in fidsExpanded || k in fidsNew
    {
      var r := SortedSet(fidsExpanded + fidsNew);
      IncreasingIsDistinct(r);
      r
    }

    /** For a fire with a valid configuration, each view is one lifecycle
        phase (or, for the dead view, the two resting phases), and the
        valid view is every phase but the invalid one. */
    lemma ViewsByPhase()
      ensures forall k :: k in fires && fires[k].cfg.Valid() ==>
        var p := Lifecycle.PhaseOf(fires[k].invalid, fires[k].TInactive(), fires[k].cfg);
        && (k in ViewIds(ActiveView) <==> p == Lifecycle.Active)
        && (k in ViewIds(SleeperView) <==> p == Lifecycle.Sleeper)
        && (k in ViewIds(DeadView) <==> p == Lifecycle.Dead || p == Lifecycle.Invalid)
        && (k in ViewIds(ValidView) <==> p != Lifecycle.Invalid)
    {
      forall k | k in fires && fires[k].cfg.Valid()
        ensures var p := Lifecycle.PhaseOf(fires[k].invalid, fires[k].TInactive(), fires[k].cfg);
          (k in ViewIds(DeadView) <==> p == Lifecycle.Dead || p == Lifecycle.Invalid)
      {
        var f := fires[k];
        Lifecycle.DeadIsRest(f.invalid, f.TInactive(), f.cfg);
      }
    }

    /** Every newly formed or expanded fire is among the updated ones. */
    lemma NeWithinUpdated()
      ensures forall k :: k in FidsNe() ==> k in FidsUpdated()
      ensures |FidsNe()| <= |FidsUpdated()|
    {
      var ne := FidsNe();
      DistinctCard(ne);
      SubsetCard((set k | k in ne), FidsUpdated());
    }

    /** No fire is in both the active and the sleeper view. */
    lemma ActiveSleeperDisjoint()
      ensures ViewIds(ActiveView) !! ViewIds(SleeperView)
    {
      forall k | k in fires
        ensures !(InView(fires[k], ActiveView) && InView(fires[k], SleeperView))
      {
        var f := fires[k];
        Lifecycle.ActiveNotSleeper(f.invalid, f.TInactive(), f.cfg);
      }
    }

    /** Every fire id is in exactly one of the active, sleeper and dead lists,
        and each list names a fire at most once. */
    lemma ViewsPartition()
      requires Valid()
      ensures forall k :: k in fires <==> k in FidsActive() || k in FidsSleeper() || k in FidsDead()
      ensures forall k :: k in FidsActive() ==> k !in FidsSleeper() && k !in FidsDead()
      ensures forall k :: k in FidsSleeper() ==> k !in FidsDead()
      ensures Distinct(FidsActive()) && Distinct(FidsSleeper()) && Distinct(FidsDead())
    {
      ActiveSleeperDisjoint();
      FilterDistinct(order, ViewIds(ActiveView));
      FilterDistinct(order, ViewIds(SleeperView));
      FilterDistinct(order, ViewIds(DeadView));
    }

    /** The three lists together are exactly as long as the number of fires. */
    lemma ViewsCount()
      requires Valid()
      ensures |FidsActive()| + |FidsSleeper()| + |FidsDead()| == |fires|
    {
      ActiveSleeperDisjoint();
      FilterSplit3(order, ViewIds(ActiveView), ViewIds(SleeperView), ViewIds(DeadView));
      DistinctCard(order);
      var keys := set k | k in order;
      assert forall k :: k in fires.Keys <==> k in keys;
      assert fires.Keys == keys;
    }

    /** Each dict view holds exactly the fires of the matching id list, under
        their own ids, and the valid list is the fires not invalidated. */
    lemma MapViewsMatchLists()
      requires Valid()
      ensures forall k :: k in ActiveFires() <==> k in FidsActive()
      ensures forall k :: k in MayActiveFires() <==> k in FidsActive() || k in FidsSleeper()
      ensures forall k :: k in DeadFires() <==> k in FidsDead()
      ensures forall k :: k in ValidFires() <==> k in FidsValid()
      ensures forall k :: k in FidsValid() <==> k in fires && !fires[k].invalid
      ensures forall k :: k in ActiveFires() ==> ActiveFires()[k] == fires[k]
      ensures forall k :: k in MayActiveFires() ==> MayActiveFires()[k] == fires[k]
      ensures forall k :: k in DeadFires() ==> DeadFires()[k] == fires[k]
      ensures forall k :: k in ValidFires() ==> ValidFires()[k] == fires[k]
      ensures Distinct(FidsValid())
    {
      FilterDistinct(order, ViewIds(ValidView));
    }

    /** The dead fires are the complement of the active-or-sleeping ones and,
        for fires with a valid configuration, exactly those that are `isdead`. */
    lemma DeadIsComplement()
      requires Valid()
      ensures DeadFires().Keys == fires.Keys - MayActiveFires().Keys
      ensures forall k :: k in fires && fires[k].cfg.Valid() ==> (k in FidsDead() <==> fires[k].IsDead())
    {
      forall k | k in fires && fires[k].cfg.Valid()
        ensures k in FidsDead() <==> fires[k].IsDead()
      {
        var f := fires[k];
        Lifecycle.DeadIsRest(f.invalid, f.TInactive(), f.cfg);
      }
    }

    /** Sets the collection's time. */
    method UpdateT(t: int)
      modifies this`t
      ensures this.t == t
    {
      this.t := t;
    }

    /** Sets every member fire's time to `t`, changing nothing else. */
    method UpdateTAllfires(t: int)
      requires Valid()
      modifies fires.Values`t
      ensures Valid()
      ensures forall k :: k in fires ==> fires[k].t == t
    {
      var i := 0;
      while i < |order|
        invariant 0 <= i <= |order|
        invariant forall k :: k in fires ==> fires[k].t == if k in order[..i] then t else old(fires[k].t)
      {
        var k := order[i];
        assert k in order;
        var f := fires[k];
        assert forall j :: j in fires && j != k ==> fires[j] != f;
        f.t := t;
        assert order[..i + 1] == order[..i] + [k];
        i := i + 1;
      }
      assert order[..i] == order;
    }

    /** Starts a new time step: advances the collection and every fire to
        `t` and empties the four change lists; fires, their ids, and the
        merge records are left as they were. */
    method Cleanup(t: int)
      requires Valid()
      modifies this, fires.Values`t
      ensures Valid()
      ensures this.t == t
      ensures fires == old(fires) && order == old(order)
      ensures forall k :: k in fires ==> fires[k].t == t
      ensures fidsExpanded == [] && fidsNew == [] && fidsMerged == [] && fidsInvalid == []
      ensures FidsUpdated() == {}
      ensures heritages == old(heritages) && idDict == old(idDict)
    {
      UpdateT(t);
      UpdateTAllfires(t);
      fidsExpanded := [];
      fidsNew := [];
      fidsMerged := [];
      fidsInvalid := [];
    }

    /** Replaces each change list whose argument is given and non-empty;
        an absent or empty argument keeps the list as it was. */
    method RecordFidsChange(expanded: Option<seq<int>>, formed: Option<seq<int>>,
                            merged: Option<seq<int>>, invalidated: Option<seq<int>>)
      modifies this`fidsExpanded, this`fidsNew, this`fidsMerged, this`fidsInvalid
      ensures fidsExpanded == if expanded.Some? && expanded.value != [] then expanded.value else old(fidsExpanded)
      ensures fidsNew == if formed.Some? && formed.value != [] then formed.value else old(fidsNew)
      ensures fidsMerged == if merged.Some? && merged.value != [] then merged.value else old(fidsMerged)
      ensures fidsInvalid == if invalidated.Some? && invalidated.value != [] then invalidated.value else old(fidsInvalid)
    {
      if expanded.Some? && expanded.value != [] {
        fidsExpanded := expanded.value;
      }
      if formed.Some? && formed.value != [] {
        fidsNew := formed.value;
      }
      if merged.Some? && merged.value != [] {
        fidsMerged := merged.value;
      }
      if invalidated.Some? && invalidated.value != [] {
        fidsInvalid := invalidated.value;
      }
    }

    /** The static-source filter: each active fire that is dense and small is
        invalidated and its id appended, once, to `fidsInvalid`. No other
        fire and no other field of these fires changes, and none of them is
        active afterwards. */
    method InvalidateStatfires()
      requires Valid()
      modifies this`fidsInvalid, fires.Values`invalid
      ensures Valid()
      ensures fidsInvalid == old(fidsInvalid) + old(FidsStatic())
      ensures Distinct(old(FidsStatic()))
      ensures forall k :: k in fires ==> fires[k].invalid == (old(fires[k].invalid) || k in old(FidsStatic()))
      ensures forall k :: k in old(FidsStatic()) ==> !fires[k].IsActive()
      ensures forall k :: k in old(FidsStatic()) ==> k in FidsUpdated()
    {
      var act := FidsActive();
      ghost var statics := ViewIds(StaticView);
      StaticAmongActive();
      FilterDistinct(order, statics);
      InvalidateAmong(act, statics);
    }

    /** An active fire with 25 pixels per km2 over 10 km2 is taken for a
        static source; a fire of the same density over 25 km2 is not. */
    lemma StaticScenario(k: int, j: int)
      requires Valid()
      requires k in fires && fires[k].IsActive() && fires[k].Pixden() == 25.0 && fires[k].Farea() == 10.0
      requires j in fires && fires[j].Pixden() == 25.0 && fires[j].Farea() == 25.0
      ensures k in FidsStatic() && j !in FidsStatic()
    {
      StaticIdsAreDenseSmallActive();
    }

    /** The static list names exactly the active fires with density above 20
        pixels per km2 and area below 20 km2, each once. */
    lemma StaticIdsAreDenseSmallActive()
      requires Valid()
      ensures forall k :: k in FidsStatic() <==>
        k in fires && fires[k].IsActive() && fires[k].Pixden() > 20.0 && fires[k].Farea() < 20.0
      ensures Distinct(FidsStatic())
    {
      forall k | k in fires
        ensures InView(fires[k], StaticView)
            <==> fires[k].IsActive() && fires[k].Pixden() > 20.0 && fires[k].Farea() < 20.0
      {
        fires[k].StaticTest();
      }
      FilterDistinct(order, ViewIds(StaticView));
    }

    /** The static fires are the active fires whose pixel density and area
        pass the static test, in insertion order. */
    lemma StaticAmongActive()
      requires Valid()
      ensures forall k :: k in FidsActive() ==> k in fires && (k in ViewIds(StaticView) <==> fires[k].IsStatic())
      ensures Filter(FidsActive(), ViewIds(StaticView)) == FidsStatic()
    {
      FilterNested(order, ViewIds(ActiveView), ViewIds(StaticView));
    }

    /** Visits the fires `act` in order and marks invalid those among
        `statics`, whose membership agrees with the static test. */
    method InvalidateAmong(act: seq<int>, ghost statics: set<int>)
      requires forall k :: k in act ==> k in fires
      requires forall k {:trigger fires[k].IsStatic()} :: k in act ==> (k in statics <==> fires[k].IsStatic())
      requires forall k :: k in fires ==> fires[k].fid == k
      modifies this`fidsInvalid, fires.Values`invalid
      ensures fidsInvalid == old(fidsInvalid) + Filter(act, statics)
      ensures forall k :: k in fires ==> fires[k].invalid == (old(fires[k].invalid) || k in Filter(act, statics))
    {
      var i := 0;
      ghost var done: seq<int> := [];
      while i < |act|
        invariant 0 <= i <= |act|
        invariant done == FilterPrefix(act, i, statics)
        invariant fidsInvalid == old(fidsInvalid) + done
        invariant forall k :: k in fires ==> fires[k].invalid == (old(fires[k].invalid) || k in done)
      {
        var k := act[i];
        var f := fires[k];
        var isStatic := f.CheckStatic();
        assert isStatic == old(fires[k].IsStatic());
        assert forall j :: j in fires && j != k ==> fires[j] != f;
        if isStatic {
          f.invalid := true;
          fidsInvalid := fidsInvalid + [f.FireID()];
          done := done + [k];
        }
        i := i + 1;
      }
      FilterPrefixIsFilter(act, i, statics);
      assert act[..i] == act;
    }

    /** The kept fires are exactly the fires that are not dead, each once,
        and together with the dead ones they account for every fire. */
    lemma KeepIsLive()
      requires Valid()
      ensures forall k :: k in FidsKeep() <==> k in fires && k !in FidsDead()
      ensures Distinct(FidsKeep())
      ensures |FidsKeep()| + |FidsDead()| == |fires|
    {
      ViewsPartition();
      ViewsCount();
      KeepDistinct();
    }

    lemma KeepDistinct()
      requires Valid()
      ensures Distinct(FidsKeep()) && forall k :: k in FidsKeep() ==> k in fires
    {
      ActiveSleeperDisjoint();
      FilterDistinct(order, ViewIds(ActiveView));
      FilterDistinct(order, ViewIds(SleeperView));
      DistinctConcat(FidsActive(), FidsSleeper());
    }

    /** Starts a new fire year: the active fires followed by the sleepers
        are re-keyed densely from 0 in that order, each fire's id becomes its
        new key, every other fire leaves the collection, and the merge
        records are cleared. `mapping` pairs each kept fire's old id with
        its new one. */
    method NewYearReset() returns (mapping: seq<(int, int)>)
      requires Valid()
      modifies this`fires, this`order, this`heritages, fires.Values`fid
      ensures Valid()
      ensures forall k :: k in old(FidsKeep()) ==> k in old(fires)
      ensures order == Range(|old(FidsKeep())|)
      ensures forall i :: i in fires <==> 0 <= i < |order|
      ensures forall i :: 0 <= i < |order| ==> fires[i] == old(fires)[old(FidsKeep())[i]]
      ensures |mapping| == |order|
      ensures forall i :: 0 <= i < |mapping| ==> mapping[i] == (old(FidsKeep())[i], i)
      ensures forall k :: k in old(fires) && k !in old(FidsKeep()) ==> old(fires)[k].fid == k
      ensures heritages == []
    {
      var keep := FidsKeep();
      KeepDistinct();
      mapping := ResetTo(keep);
    }

    /** Re-keys the fires named by `keep` densely from 0 in that order and
        drops every other fire from the collection. */
    method ResetTo(keep: seq<int>) returns (mapping: seq<(int, int)>)
      requires Valid()
      requires Distinct(keep) && forall j :: 0 <= j < |keep| ==> keep[j] in fires
      modifies this`fires, this`order, this`heritages, fires.Values`fid
      ensures Valid()
      ensures order == Range(|keep|)
      ensures forall i :: i in fires <==> 0 <= i < |keep|
      ensures forall i :: 0 <= i < |keep| ==> fires[i] == old(fires)[keep[i]]
      ensures |mapping| == |keep| && forall i :: 0 <= i < |keep| ==> mapping[i] == (keep[i], i)
      ensures forall k :: k in old(fires) && k !in keep ==> old(fires)[k].fid == k
      ensures heritages == []
    {
      ghost var fs := fires;
      assert forall a, b :: a in fs && b in fs && a != b ==> fs[a] != fs[b];
      var newfires;
      newfires, mapping := Rekey(fires, keep);
      fires := newfires;
      order := Range(|keep|);
      heritages := [];
      assert forall k :: k in order <==> 0 <= k < |keep| by {
        forall k | k in order ensures 0 <= k < |keep| {
          var j :| 0 <= j < |order| && order[j] == k;
        }
        forall k | 0 <= k < |keep| ensures k in order {
          assert order[k] == k;
        }
      }
    }

    /** `newyear_reset` as written: the assignment to `fireID`, a property
        without a setter, raises as soon as one fire is kept, so the
        collection is only reset when no fire survives the year. */
    method NewYearResetAsWritten() returns (raised: bool)
      requires Valid()
      modifies this`fires, this`order, this`heritages
      ensures Valid()
      ensures raised <==> |old(FidsKeep())| > 0
      ensures raised ==> fires == old(fires) && order == old(order) && heritages == old(heritages)
      ensures !raised ==> fires == map[] && order == [] && heritages == []
    {
      var keep := FidsKeep();
      var newfires: map<int, Fire> := map[];
      if |keep| > 0 {
        newfires := newfires[0 := fires[keep[0]]];
        // the next statement, `newfires[0].fireID = 0`, raises
        raised := true;
        return;
      }
      raised := false;
      fires := newfires;
      order := [];
      heritages := [];
    }
  }
}
