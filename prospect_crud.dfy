/**
 * The prospect table operations of crud/prospect_crud.py over an in-memory
 * store: a map from lead serial number to prospect, standing for the
 * `prospects` table behind the SQLAlchemy session, plus the order in which
 * a full scan of the table lists its rows (what `offset`/`limit` page through).
 */
module ProspectCrud {
  import opened Seqs

  /** A `datetime`, abstracted to a point on a line. */
  type Timestamp = int

  /** One row of the `prospects` table, with the field types of `ProspectCreate`. */
  datatype Prospect = Prospect(
    leadSerialNumber: int,
    isDropped: bool,
    isWon: bool,
    endDate: Option<Timestamp>,
    date: Option<Timestamp>,
    organizationName: string,
    contactPerson: string,
    primaryPhoneNumber: string,
    otherPhoneNumber: Option<string>,
    email: string,
    industry: string,
    serviceNeeded: string,
    leadSource: string,
    city: string,
    country: string,
    valueOfLead: string,
    milestoneLevel: int,
    ownerId: int,
    points: int,
    website: Option<string>)

  // ----- Partial updates -----------------------------------------------------

  /**
   * One field of a `ProspectUpdate` request: left out of the request body
   * (`Unset`, dropped by `exclude_unset=True`), or given, possibly as null.
   */
  datatype Patch<T> = Unset | Given(value: Option<T>)

  /** `ProspectUpdate`: the only fields a client may update. */
  datatype ProspectUpdate = ProspectUpdate(isWon: Patch<bool>, endDate: Patch<Timestamp>, points: Patch<int>)

  /** One `(var, value)` item of `updates.dict(exclude_unset=True)`. */
  datatype FieldValue = IsWon(Option<bool>) | EndDate(Option<Timestamp>) | Points(Option<int>)

  /** `updates.dict(exclude_unset=True).items()`, in the declaration order of the schema. */
  function SetFields(u: ProspectUpdate): seq<FieldValue>
  {
    IsWonItem(u) + EndDateItem(u) + PointsItem(u)
  }

  function IsWonItem(u: ProspectUpdate): seq<FieldValue>
  {
    if u.isWon.Given? then [IsWon(u.isWon.value)] else []
  }

  function EndDateItem(u: ProspectUpdate): seq<FieldValue>
  {
    if u.endDate.Given? then [EndDate(u.endDate.value)] else []
  }

  function PointsItem(u: ProspectUpdate): seq<FieldValue>
  {
    if u.points.Given? then [Points(u.points.value)] else []
  }

  /** `setattr(db_prospect, var, value) if value is not None else None` */
  function SetAttr(p: Prospect, f: FieldValue): Prospect
  {
    match f
    case IsWon(Some(b)) => p.(isWon := b)
    case EndDate(Some(t)) => p.(endDate := Some(t))
    case Points(Some(n)) => p.(points := n)
    case _ => p
  }

  /** The `for` loop of `update_prospect`, applied to the items in order. */
  function ApplyAll(p: Prospect, items: seq<FieldValue>): Prospect
    decreases |items|
  {
    if items == [] then p else ApplyAll(SetAttr(p, items[0]), items[1..])
  }

  /** What a field holds after `patch`: the value sent when it is not null, `current` otherwise. */
  function Overwrite<T>(current: T, patch: Patch<T>): T
  {
    if patch.Given? && patch.value.Some? then patch.value.value else current
  }

  /** The same for a nullable column such as `end_date`: a non-null value sent replaces it. */
  function OverwriteNullable<T>(current: Option<T>, patch: Patch<T>): Option<T>
  {
    if patch.Given? && patch.value.Some? then patch.value else current
  }

  /**
   * What an update means field by field: each of `is_won`, `end_date` and
   * `points` is overwritten exactly when it was sent with a non-null value,
   * and every other field is the prospect's own.
   */
  function Patched(p: Prospect, u: ProspectUpdate): (r: Prospect)
    ensures u.isWon.Given? && u.isWon.value.Some? ==> r.isWon == u.isWon.value.value
    ensures !(u.isWon.Given? && u.isWon.value.Some?) ==> r.isWon == p.isWon
    ensures u.endDate.Given? && u.endDate.value.Some? ==> r.endDate == u.endDate.value
    ensures !(u.endDate.Given? && u.endDate.value.Some?) ==> r.endDate == p.endDate
    ensures u.points.Given? && u.points.value.Some? ==> r.points == u.points.value.value
    ensures !(u.points.Given? && u.points.value.Some?) ==> r.points == p.points
    ensures r.(isWon := p.isWon, endDate := p.endDate, points := p.points) == p
  {
    p.(isWon := Overwrite(p.isWon, u.isWon),
       endDate := OverwriteNullable(p.endDate, u.endDate),
       points := Overwrite(p.points, u.points))
  }

  lemma {:induction false} ApplyAllAppend(p: Prospect, a: seq<FieldValue>, b: seq<FieldValue>)
    ensures ApplyAll(p, a + b) == ApplyAll(ApplyAll(p, a), b)
    decreases |a|
  {
    if a != [] {
      assert (a + b)[0] == a[0] && (a + b)[1..] == a[1..] + b;
      assert ApplyAll(p, a + b) == ApplyAll(SetAttr(p, a[0]), a[1..] + b);
      ApplyAllAppend(SetAttr(p, a[0]), a[1..], b);
      assert ApplyAll(p, a) == ApplyAll(SetAttr(p, a[0]), a[1..]);
    } else {
      assert a + b == b;
    }
  }

  /** Applying a list of at most one item is one `SetAttr` or nothing. */
  lemma ApplyAllAtMostOne(p: Prospect, items: seq<FieldValue>)
    requires |items| <= 1
    ensures ApplyAll(p, items) == if items == [] then p else SetAttr(p, items[0])
  {
    if items != [] {
      assert items[1..] == [];
    }
  }

  /** Running the `setattr` loop over the set items is the field-wise update. */
  lemma ApplyAllSetFields(p: Prospect, u: ProspectUpdate)
    ensures ApplyAll(p, SetFields(u)) == Patched(p, u)
  {
    var a, b, c := IsWonItem(u), EndDateItem(u), PointsItem(u);
    ApplyAllAppend(p, a + b, c);
    ApplyAllAppend(p, a, b);
    var pa := ApplyAll(p, a);
    ApplyAllAtMostOne(p, a);
    assert pa == p.(isWon := Patched(p, u).isWon);
    var pb := ApplyAll(pa, b);
    ApplyAllAtMostOne(pa, b);
    assert pb == pa.(endDate := Patched(p, u).endDate);
    ApplyAllAtMostOne(pb, c);
    assert ApplyAll(pb, c) == pb.(points := Patched(p, u).points);
  }

  /** Sending the same update twice leaves the prospect as sending it once. */
  lemma PatchedIdempotent(p: Prospect, u: ProspectUpdate)
    ensures Patched(Patched(p, u), u) == Patched(p, u)
  {
  }

  /** An update whose every field is left out or null changes nothing. */
  lemma PatchedNullsChangeNothing(p: Prospect, u: ProspectUpdate)
    requires !u.isWon.Given? || u.isWon.value.None?
    requires !u.endDate.Given? || u.endDate.value.None?
    requires !u.points.Given? || u.points.value.None?
    ensures Patched(p, u) == p
  {
  }

  // ----- Errors --------------------------------------------------------------

  /** `HTTPException(status_code, detail)`. */
  datatype HttpError = HttpError(statusCode: int, detail: string)

  const DuplicateSerial := HttpError(400, "A prospect with this serial number already exists.")
  const NotFound := HttpError(404, "Prospect not found")

  /** A return value, or the `HTTPException` raised instead. */
  datatype Result<T> = Ok(value: T) | Err(error: HttpError)

  /** `xs` without the element `k`. */
  function Without(xs: seq<int>, k: int): (r: seq<int>)
    ensures forall x | x in r :: x in xs && x != k
    ensures forall x | x in xs && x != k :: x in r
    ensures NoDuplicates(xs) ==> NoDuplicates(r)
    decreases |xs|
  {
    if xs == [] then []
    else
      var rest := Without(xs[1..], k);
      assert xs == [xs[0]] + xs[1..];
      assert NoDuplicates(xs) ==> NoDuplicates(xs[1..]) && xs[0] !in xs[1..] by {
        if NoDuplicates(xs) {
          forall j | 0 <= j < |xs[1..]| ensures xs[1..][j] != xs[0] {
            assert xs[1..][j] == xs[j + 1];
          }
        }
      }
      if xs[0] == k then rest else ConsNoDuplicates(xs[0], rest); [xs[0]] + rest
  }

  lemma ConsNoDuplicates(x: int, xs: seq<int>)
    ensures NoDuplicates(xs) && x !in xs ==> NoDuplicates([x] + xs)
  {
    if NoDuplicates(xs) && x !in xs {
      var ys := [x] + xs;
      forall i, j | 0 <= i < j < |ys| ensures ys[i] != ys[j] {
        assert ys[j] == xs[j - 1];
        if i > 0 {
          assert ys[i] == xs[i - 1];
        }
      }
    }
  }

  /** The rows stored under `keys`, in the order of `keys`. */
  function RowsOf(rs: map<int, Prospect>, keys: seq<int>): (r: seq<Prospect>)
    requires forall j | 0 <= j < |keys| :: keys[j] in rs
    ensures |r| == |keys| && forall j | 0 <= j < |r| :: r[j] == rs[keys[j]]
  {
    seq(|keys|, j requires 0 <= j < |keys| => rs[keys[j]])
  }

  // ----- The store -----------------------------------------------------------

  /** The `prospects` table, keyed by its primary key `lead_serial_number`. */
  class ProspectStore {
    /** The rows, by primary key. */
    var rows: map<int, Prospect>
    /** The primary keys in the order a full scan lists them. */
    var order: seq<int>

    /** Each row sits under its own serial number, and the scan order lists every key once. */
    ghost predicate Valid()
      reads this
    {
      && (forall k | k in rows :: rows[k].leadSerialNumber == k)
      && NoDuplicates(order)
      && (forall i | 0 <= i < |order| :: order[i] in rows)
      && (forall k | k in rows :: k in order)
    }

    /** An empty table. */
    constructor()
      ensures Valid() && rows == map[] && order == []
    {
      rows := map[];
      order := [];
    }

    /** `get_prospect`: the row with this serial number, or None. */
    function GetProspect(serial: int): (r: Option<Prospect>)
      reads this
      requires Valid()
      ensures r.None? <==> serial !in rows
      ensures r.Some? ==> r.value == rows[serial] && r.value.leadSerialNumber == serial
    {
      if serial in rows then Some(rows[serial]) else None
    }

    /** The number of rows left for a page after skipping `skip` of them, capped at `limit`. */
    static function PageLength(count: nat, skip: nat, limit: nat): nat
    {
      if skip >= count then 0 else if count - skip < limit then count - skip else limit
    }

    /**
     * `get_prospects`: the rows of a full scan after the first `skip`, at
     * most `limit` of them, each a stored row and no serial number twice.
     */
    function GetProspects(skip: nat, limit: nat): (page: seq<Prospect>)
      reads this
      requires Valid()
      ensures |page| <= limit
      ensures |page| == PageLength(|order|, skip, limit)
      ensures forall j | 0 <= j < |page| :: skip + j < |order| && order[skip + j] in rows && page[j] == rows[order[skip + j]]
      ensures forall j | 0 <= j < |page| :: page[j] in rows.Values
      ensures forall i, j | 0 <= i < j < |page| :: page[i].leadSerialNumber != page[j].leadSerialNumber
    {
      var n := PageLength(|order|, skip, limit);
      if skip >= |order| then []
      else
        var keys := order[skip..skip + n];
        assert forall j | 0 <= j < n :: keys[j] == order[skip + j];
        RowsOf(rows, keys)
    }

    /** The scan order has exactly as many entries as there are rows. */
    lemma OrderCountsRows()
      requires Valid()
      ensures |order| == |rows|
    {
      var keys := set k | k in order;
      assert forall k | k in rows.Keys :: k in keys;
      assert forall k | k in keys :: k in rows.Keys;
      assert keys == rows.Keys;
      DistinctCount(order);
    }

    /** Two consecutive pages read the same rows as one page covering both. */
    lemma PagesConcatenate(skip: nat, a: nat, b: nat)
      requires Valid()
      ensures GetProspects(skip, a) + GetProspects(skip + a, b) == GetProspects(skip, a + b)
    {
    }

    /** A page starting at 0 and as long as the table lists every stored row. */
    lemma FullPageListsEveryRow(limit: nat)
      requires Valid() && limit >= |rows|
      ensures forall k | k in rows :: rows[k] in GetProspects(0, limit)
    {
      var page := GetProspects(0, limit);
      OrderCountsRows();
      forall k | k in rows ensures rows[k] in page {
        var j :| 0 <= j < |order| && order[j] == k;
        assert page[j] == rows[k];
      }
    }

    /**
     * `create_prospect`: a serial number already present is refused with
     * status 400 and nothing changes; otherwise the row is added and
     * returned, and every other row is unchanged.
     */
    method CreateProspect(prospect: Prospect) returns (r: Result<Prospect>)
      requires Valid()
      modifies this
      ensures Valid()
      ensures old(prospect.leadSerialNumber in rows) ==> r == Err(DuplicateSerial) && rows == old(rows) && order == old(order)
      ensures old(prospect.leadSerialNumber !in rows) ==>
                && r == Ok(prospect)
                && rows == old(rows)[prospect.leadSerialNumber := prospect]
                && order == old(order) + [prospect.leadSerialNumber]
      ensures GetProspect(prospect.leadSerialNumber).Some?
      ensures r.Ok? ==> GetProspect(prospect.leadSerialNumber) == Some(prospect)
    {
      var existing := GetProspect(prospect.leadSerialNumber);
      if existing.Some? {
        return Err(DuplicateSerial);
      }
      rows := rows[prospect.leadSerialNumber := prospect];
      order := order + [prospect.leadSerialNumber];
      r := Ok(prospect);
    }

    /**
     * `update_prospect`: an unknown serial number is refused with status
     * 404 and nothing changes; otherwise the fields sent with a non-null
     * value are overwritten and every other field and row is unchanged.
     */
    method UpdateProspect(serial: int, updates: ProspectUpdate) returns (r: Result<Prospect>)
      requires Valid()
      modifies this
      ensures Valid()
      ensures order == old(order)
      ensures old(serial !in rows) ==> r == Err(NotFound) && rows == old(rows)
      ensures old(serial in rows) ==>
                && r == Ok(Patched(old(rows)[serial], updates))
                && rows == old(rows)[serial := Patched(old(rows)[serial], updates)]
    {
      var existing := GetProspect(serial);
      if existing.None? {
        return Err(NotFound);
      }
      var prospect := existing.value;
      var items := SetFields(updates);
      for i := 0 to |items|
        invariant ApplyAll(prospect, items[i..]) == ApplyAll(existing.value, items)
      {
        assert items[i..][1..] == items[i + 1..];
        prospect := SetAttr(prospect, items[i]);
      }
      ApplyAllSetFields(existing.value, updates);
      rows := rows[serial := prospect];
      r := Ok(prospect);
    }

    /**
     * `delete_prospect`: an unknown serial number is refused with status
     * 404 and nothing changes; otherwise that row is gone, every other row
     * is unchanged, and the result is True.
     */
    method DeleteProspect(serial: int) returns (r: Result<bool>)
      requires Valid()
      modifies this
      ensures Valid()
      ensures old(serial !in rows) ==> r == Err(NotFound) && rows == old(rows) && order == old(order)
      ensures old(serial in rows) ==> r == Ok(true) && rows == old(rows) - {serial} && order == Without(old(order), serial)
      ensures GetProspect(serial) == None
    {
      var existing := GetProspect(serial);
      if existing.None? {
        return Err(NotFound);
      }
      rows := rows - {serial};
      order := Without(order, serial);
      assert forall i | 0 <= i < |order| :: order[i] in order;
      r := Ok(true);
    }
  }

  /** A sequence without duplicates has as many elements as its set of elements. */
  lemma {:induction false} DistinctCount(xs: seq<int>)
    requires NoDuplicates(xs)
    ensures |set k | k in xs| == |xs|
    decreases |xs|
  {
    if xs != [] {
      var tail := xs[1..];
      assert NoDuplicates(tail) by {
        forall i, j | 0 <= i < j < |tail| ensures tail[i] != tail[j] {
          assert tail[i] == xs[i + 1] && tail[j] == xs[j + 1];
        }
      }
      DistinctCount(tail);
      assert xs[0] !in tail by {
        forall j | 0 <= j < |tail| ensures tail[j] != xs[0] {
          assert tail[j] == xs[j + 1];
        }
      }
      assert (set k | k in xs) == (set k | k in tail) + {xs[0]} by {
        assert xs == [xs[0]] + tail;
      }
    }
  }
}
