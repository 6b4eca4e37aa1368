# Fire event objects of the fire atlas tracker

This project models the fire-event object model of the fire atlas tracker
(`FireObj.py`) and proves its contracts in Dafny.

- **`Fire`** is one tracked fire event. It has a current step `t`, an
  ignition step `t_st` and a last-growth step `t_ed`. It carries a hull, a
  cached fire line and a one-way `invalid` flag. Its pixels are the rows of
  a shared pixel table that carry its id.
- **`Allfires`** is the collection at one time step. It maps fire ids to
  fires in insertion order. It keeps four step-local change lists
  (expanded, new, merged, invalidated), the merge records (`heritages`),
  and an id table.

The model is split into modules as follows.

- `Lifecycle` holds the four lifecycle predicates as pure comparisons.
- `Measures` holds fire area, pixel density and the static-source test.
- `FireVector` is the geometry engine, seen only through its interface.
  Hulls and fire lines are symbolic values. Area, length, hull and
  fire-line selection are functions the engine supplies. The predicate
  `Sound` states the two facts assumed of it:
  - a union contains both of its operands;
  - a shape inside another has no larger area.
- `PixelStore` holds the shared pixel table and the ownership filter
  over it.
- `FireObj` holds the two classes.
  - `Fire` fields that FireObj.py updates in place are `var`s, changed
    by methods with `modifies` clauses.
  - `Allfires` keeps its dict as a map plus a sequence of keys in
    insertion order. `Valid()` says that every fire is stored under its
    own id, so no fire sits under two keys.

Time is an integer index of half-day steps, so `t_inactive` is `t - t_ed`.
The growth and death windows (`maxoffdays`, `limoffdays`) are expressed in
that unit. For example, 5 and 20 days become 10 and 40. They come in a
`Config` value with the nominal pixel area and the two fire-line buffer
distances.

## Model

| member | source | states |
|---|---|---|
| Lifecycle.PhaseOf | FireObj.py:391-425 | with `maxoffdays < limoffdays` every fire is in exactly one of active, sleeper, dead-but-valid and invalid; active iff `isactive`, sleeper iff `mayreactivate`, dead or invalid iff `isdead`, invalid iff the flag is set |
| Lifecycle.InvalidIsDead | FireObj.py:397-422 | an invalidated fire is `isdead` and neither `isactive` nor `mayreactivate`, whatever its inactivity |
| Lifecycle.DeadIsRest | FireObj.py:403-413 | with a valid configuration `isdead` holds exactly when neither `isactive` nor `mayreactivate` does |
| Lifecycle.ActiveNotSleeper | FireObj.py:391-425 | no fire is both active and a sleeper, whatever the windows |
| Lifecycle.WindowScenario | FireObj.py:382-425 | with windows of 10 and 40 half-days, a fire idle 8 half-days is active, 17 is a sleeper and 59 is dead |
| Measures.Farea | FireObj.py:538-552 | with a hull the area is `max(hull area / 1e6, area_VI)`, so it is at least both; without a hull it is `n_pixels * area_VI` |
| Measures.FareaFloor | FireObj.py:538-552 | a fire with at least one pixel is never smaller than one nominal pixel area |
| Measures.FareaMonotone | FireObj.py:538-552 | a larger hull never gives a smaller fire area |
| Measures.PixdenSpec | FireObj.py:554-562 | for a positive area the density times the area is the pixel count; otherwise the density is 0; it is never negative |
| Measures.StaticWithoutDivision | FireObj.py:554-562 | the test `pixden > 20 and farea < 20` holds exactly when the area is positive and below 20 and the pixel count exceeds 20 times the area |
| FireVector.FireLineOf | FireObj.py:628-647 | for a polygon or multipolygon hull the fire line is the exterior curves intersected with the fire-line points buffered by `VIIRSbuf` and then by `flbuffer`; for any other hull it is the points buffered once |
| FireVector.SinglePartAsMultiPart | FireObj.py:637-645 | a polygon hull gives the same fire line as a multipolygon with that one part |
| PixelStore.Owned | FireObj.py:438-440 | a row is among the pixels of fire `id` iff it is a table row whose fid is `id`; the view is never longer than the table |
| PixelStore.OwnedCount | FireObj.py:438-440 | each row occurs in a fire's view exactly as often as in the table when it carries the fire's id, and not at all otherwise, so `n_pixels` counts the rows assigned to the fire |
| PixelStore.MaskedSelects | FireObj.py:593-594 | indexing the new pixels with the engine's selection keeps exactly the rows at the positions it marks |
| PixelStore.OwnerGains | FireObj.py:442-444 | assigning rows to a fire never lowers its pixel count |
| PixelStore.OthersLose | FireObj.py:442-444 | assigning rows to a fire never raises another fire's pixel count |
| FireObj.Fire.constructor | FireObj.py:303-345 | fid and mergeid are `id`; `t`, `t_st` and `t_ed` are `t`; the given rows now carry `id` and are among its pixels; the hull is the engine's hull of their locations; no prior fire line; valid; it is at its ignition step and active for a non-negative growth window |
| FireObj.Fire.Pixels | FireObj.py:438-440 | a row is among the fire's pixels iff it is in the shared table and carries the fire's id |
| FireObj.Fire.NewPixels | FireObj.py:472-475 | the new pixels are the fire's pixels detected at the current step |
| FireObj.Fire.SetPixels | FireObj.py:442-444 | exactly the given rows get the fire's id; every other row is unchanged; the given rows are then among its pixels; its pixel count does not drop |
| FireObj.Fire.StaticTest | FireObj.py:291 | the fire is static iff its density is above 20 and its area below 20 |
| FireObj.Fire.CheckStatic | FireObj.py:291 | computes the test of FireObj.py on `pixden` and `farea`, and its answer is the fire's static predicate |
| FireObj.Fire.FlinePixels | FireObj.py:584-597 | empty without a hull, when the engine's selection fails, or when the selection does not fit the new pixels; otherwise exactly the new pixels at the positions the engine selects |
| FireObj.Fire.Fline | FireObj.py:617-652 | None iff there are no fire-line pixels, and then `fline_prior` is untouched; otherwise the fire line of the hull and those pixels, also stored in `fline_prior` |
| FireObj.Fire.FlineLen | FireObj.py:654-663 | 0 and the cache untouched when there is no fire line; otherwise `fline_prior` holds the fire line of the hull and the fire-line pixels, and the result is its length in km |
| FireObj.Fire.UpdateHull | FireObj.py:674-682 | the hull becomes the union of the old hull and the hull of `newlocs`; with a sound engine the old hull lies within it and the fire area does not shrink |
| FireObj.Allfires.constructor | FireObj.py:19-51 | time `t`, no fires, all change lists, `heritages` and the id table empty |
| FireObj.Allfires.ViewsByPhase | FireObj.py:87-155 | for a fire with a valid configuration: it is in `fids_active` iff its phase is active, in `fids_sleeper` iff it is a sleeper, in `fids_dead` iff it is dead or invalidated, and in `fids_valid` iff it is not invalidated |
| Seqs.Filter | FireObj.py:87-91 | the comprehension behind each id view: an id is listed iff it is among the keys and passes the view's test |
| FireObj.Allfires.ActiveSleeperDisjoint | FireObj.py:87-129 | no id is both in the active and in the sleeper view |
| FireObj.Allfires.ViewsPartition | FireObj.py:87-135 | `fids_active`, `fids_sleeper` and `fids_dead` are pairwise disjoint, each lists an id once, and together they cover every key |
| FireObj.Allfires.ViewsCount | FireObj.py:81-135 | the three lists' lengths add up to `number_of_fires` |
| FireObj.Allfires.MapViewsMatchLists | FireObj.py:99-155 | `activefires`, `mayactivefires`, `deadfires` and `validfires` hold exactly the fires of the matching id lists under their own ids; `fids_valid` is the fires not invalidated, each once |
| FireObj.Allfires.DeadIsComplement | FireObj.py:105-123 | `deadfires` is the complement of `mayactivefires`; for a valid configuration its ids are exactly the `isdead` fires |
| FireObj.Allfires.NeWithinUpdated | FireObj.py:157-178 | every id in `fids_ne` is also in `fids_updated`, and `fids_ne` is no longer than `fids_updated` |
| FireObj.Allfires.FidsNe | FireObj.py:172-178 | strictly increasing, hence without repeats, and holding exactly the expanded and new ids |
| Seqs.SortedSet | FireObj.py:177 | `sorted(set(s))`: strictly increasing with the same members as `s` |
| FireObj.Allfires.UpdateT | FireObj.py:181-188 | the collection's time becomes `t` |
| FireObj.Allfires.UpdateTAllfires | FireObj.py:190-198 | every member fire's time becomes `t`; no other field of any fire changes |
| FireObj.Allfires.Cleanup | FireObj.py:200-222 | the collection and every fire move to `t`; the four change lists are emptied, so no id is updated; fires, keys, `heritages` and the id table are unchanged |
| FireObj.Allfires.RecordFidsChange | FireObj.py:259-283 | each change list is replaced only by a present, non-empty argument; otherwise it keeps its old value |
| FireObj.Allfires.InvalidateStatfires | FireObj.py:285-296 | exactly the static active fires become invalid, in list order, their ids appended once each to `fids_invalid`, after which none of them is active and each is in `fids_updated`; no other field of any fire changes |
| FireObj.Allfires.StaticScenario | FireObj.py:285-296 | in a valid collection, an active fire with density 25 and area 10 is in the static list that `invalidate_statfires` invalidates, and a fire with density 25 and area 25 is not |
| FireObj.Allfires.StaticIdsAreDenseSmallActive | FireObj.py:290-291 | the fires the filter visits and invalidates are exactly the active ones with `pixden > 20` and `farea < 20`, each once |
| FireObj.Allfires.InvalidateAmong | FireObj.py:290-296 | the loop over the active fires: a visited fire is marked invalid and its id appended exactly when it passes the static test |
| FireObj.Allfires.KeepIsLive | FireObj.py:232 | the kept ids are exactly the fires that are not dead, each once, and kept plus dead count every fire |
| FireObj.Allfires.NewYearReset | FireObj.py:224-256 | the active fires then the sleepers are re-keyed `0..n-1` in that order; each kept fire's id becomes its new key; every other fire leaves the collection with its id unchanged; one `(old, new)` pair per kept fire; `heritages` empty; the change lists, time and id table are unchanged |
| FireObj.Allfires.ResetTo | FireObj.py:229-238 | re-keys the given distinct ids densely in order and drops every other fire from the collection |
| FireObj.Rekey | FireObj.py:230-236 | the re-keying loop: key `i` holds the fire of the `i`-th kept id with its id set to `i`, and the mapping pairs each old id with its new one |
| FireObj.Allfires.NewYearResetAsWritten | FireObj.py:232-237 | as written, the reset raises iff at least one fire is kept, leaving the fires and `heritages` unchanged; only with no survivor are they emptied; no other field changes |

## Left out

- File output is not modelled. `FireIO.save_newyearfidmapping` and the
  `regnm` argument are dropped; `NewYearReset` returns the mapping instead.
- `FireTime` calendar arithmetic is replaced by half-day indices. This
  covers `t_dif`, `t2dt` and the `cday`/`cdoy`/`ampm` properties.
- The geometry itself is not modelled. `cal_hull`, `union`, `exterior`,
  `buffer`, `intersection`, lengths and `get_fline_pixels` are engine
  functions. The only assumptions about them are the two facts in `Sound`.
- `updateftype`/`ftypename` are out of scope because they call an external
  classifier.
- `stFM1000` is not modelled. FireObj.py:347-351 only sets it to the
  constant 0 when `FTYP_opt == 1`; the fuel lookup there is commented out.
- These operations are not modelled:
  - `meanFRP`, because it is a floating-point mean;
  - `locs`, `locs_geo`, `newlocs_geo`, `locsMP`, `newlocsMP`,
    `newpixelatts`, `ignpixels` and `ignition_center_geo`, because they are
    shapely and dataframe column projections;
  - `n_newpixels` (FireObj.py:518-522), the length of `newpixels`, because
    none of the modelled operations use it;
  - logging, the `@timed` decorator and the `print` in the fire-line
    handler.
- Pixel attributes other than location, time and owner are not
  modelled. Dataframe row labels are modelled as positions in the pixel
  table.
- FireObj.Fire.UpdateHull: requires both the old hull and the hull of
  `newlocs` to be present. A missing old hull raises at FireObj.py:682
  (`None.union`). A missing new hull is not modelled, because what `union`
  does with None depends on the geometry library's version.
- Areas, densities and lengths are exact reals. The floating-point rounding
  of `farea`, `pixden`, `fperim` and `flinelen` (FireObj.py:551-552, 560,
  581, 659) is not modelled. Near the thresholds of FireObj.py:291 a rounded
  `n_pixels / farea` can differ from the exact quotient, so the static filter
  may decide such a boundary case differently from the model.
- FireObj.Fire.constructor: takes the sensor as an argument; the default
  `sensor="viirs"` of FireObj.py:303 is not modelled.
- FireObj.Fire.Fline: returns None when there are no fire-line pixels
  (FireObj.py:625-626). It does not fall back to `fline_prior`; the cached
  value is kept for callers to read.
- FireObj.Fire.constructor: accepts an empty pixel selection, because
  FireObj.py:303-345 has no check for it.
- FireObj.Allfires.FidsUpdated: is a set, because FireObj.py builds the list
  from a Python set and its order is unspecified.
- FireObj.Allfires.RecordFidsChange and FireObj.Allfires.InvalidateStatfires:
  lists are values here. FireObj.py:275-283 stores the caller's list object
  itself, and FireObj.py:296 then appends to it in place, so the caller's
  list grows too. The model does not capture that aliasing: the caller's
  list is never changed.
- Some members are plain projections or unit conversions with no property
  beyond their definition, so they carry no row of their own:
  - `number_of_fires`, `number_of_activefires`, `number_of_sleeper`,
    `number_of_validfires` and `fids` are the lengths of the lists and the
    key list;
  - FireObj.Fire.FireID (`fireID`, FireObj.py:434-436) is `fid`;
  - FireObj.Fire.IsIgnition and Lifecycle.IsIgnition (`isignition`,
    FireObj.py:427-432) are `t == t_st`;
  - FireObj.Fire.IsActive, FireObj.Fire.IsDead, FireObj.Fire.MayReactivate,
    FireObj.Fire.Farea and FireObj.Fire.Pixden are the `Lifecycle` and
    `Measures` members of the same names applied to the fire's own fields;
    their properties are stated there;
  - FireObj.Fire.TInactive (`t_inactive`, FireObj.py:382-389) is `t - t_ed`;
  - FireObj.Fire.NPixels (`n_pixels`, FireObj.py:467-470) is the length of
    the pixel view; `PixelStore.OwnedCount` says what it counts;
  - FireObj.Fire.Fperim (`fperim`, FireObj.py:572-582) is 0 without a hull
    and otherwise the engine's hull length in km;
  - FireObj.Allfires.ViewIds is the id set behind each view, characterised
    by `ViewsByPhase`;
  - FireObj.Allfires.FidsUpdated (`fids_updated`) is the union of the four
    change lists, related to the rest by `NeWithinUpdated`,
    `InvalidateStatfires` and `Cleanup`.
- `duration` (FireObj.py:373-380) is not modelled because none of the
  modelled operations use it.
- FireObj.Allfires.NewYearReset: re-keys each fire's id but not the shared
  pixel table, which FireObj.py:224-256 does not touch either. Because a
  fire's pixels are looked up by its id, a re-keyed fire sees the table
  rows that carry its new id.

## Findings

| source | as written | input that shows it | evidently intended | confidence | as-written member | corrected member |
|---|---|---|---|---|---|---|
| FireObj.py:235 | `newfires[i].fireID = i` assigns to `fireID`, a property with no setter (FireObj.py:434-436). Python raises `AttributeError`, so `newyear_reset` fails before `self.fires` is replaced. | any collection with at least one active or sleeper fire at a year boundary | set the fire's id (`_fid`) to its new key `i`, then replace the dict and clear `heritages` | not executed; follows from Python's rule for properties without a setter | FireObj.Allfires.NewYearResetAsWritten | FireObj.Allfires.NewYearReset |
