/** The content service (src/app/lib/contentService.ts): listing, lookup,
    creation, partial update and deletion of `sections` rows. */
module Content {
  import opened Types
  import opened Store

  // The messages of the service's catch blocks.
  const FetchAllFailed: string := "حدث خطأ أثناء جلب البيانات"
  const FetchOneFailed: string := "حدث خطأ أثناء جلب القسم"
  const CreateFailed: string := "حدث خطأ أثناء إنشاء القسم"
  const UpdateFailed: string := "حدث خطأ أثناء تحديث القسم"
  const DeleteFailed: string := "حدث خطأ أثناء حذف القسم"

  /** What a caller gives to createSection: a section without `id` and `created_at`. */
  datatype NewSection = NewSection(title: string, description: Option<string>, image_url: Option<string>)

  /** A partial section: each present field replaces that column; a nullable
      column may be set to null (`Some(None)`). */
  datatype SectionPatch = SectionPatch(
    id: Option<int>,
    title: Option<string>,
    description: Option<Option<string>>,
    image_url: Option<Option<string>>,
    created_at: Option<Timestamp>)

  /** The row after an update with `p`. */
  function Apply(s: Section, p: SectionPatch): (r: Section)
    ensures p.id.None? ==> r.id == s.id
    ensures p.title.None? ==> r.title == s.title
    ensures p.description.None? ==> r.description == s.description
    ensures p.image_url.None? ==> r.image_url == s.image_url
    ensures p.created_at.None? ==> r.created_at == s.created_at
    ensures p.id.Some? ==> r.id == p.id.value
    ensures p.title.Some? ==> r.title == p.title.value
    ensures p.description.Some? ==> r.description == p.description.value
    ensures p.image_url.Some? ==> r.image_url == p.image_url.value
    ensures p.created_at.Some? ==> r.created_at == p.created_at.value
  {
    Section(
      p.id.GetOr(s.id),
      p.title.GetOr(s.title),
      p.description.GetOr(s.description),
      p.image_url.GetOr(s.image_url),
      p.created_at.GetOr(s.created_at))
  }

  /** `k` is the key of the row listed first: the latest `created_at`, and
      among equal ones the largest id. */
  predicate IsFirst(m: map<int, Section>, k: int) {
    && k in m
    && forall j :: j in m ==>
         m[j].created_at < m[k].created_at || (m[j].created_at == m[k].created_at && j <= k)
  }

  lemma NonEmptyHasKey(m: map<int, Section>)
    requires |m| > 0
    ensures exists k :: k in m
  {
    if forall k :: k !in m {
      assert false;
    }
  }

  lemma {:induction false} FirstExists(m: map<int, Section>)
    requires |m| > 0
    ensures exists k :: IsFirst(m, k)
    decreases |m|
  {
    NonEmptyHasKey(m);
    var k0 :| k0 in m;
    var rest := m - {k0};
    if |rest| == 0 {
      assert rest.Keys == m.Keys - {k0};
      assert IsFirst(m, k0);
    } else {
      FirstExists(rest);
      var k1 :| IsFirst(rest, k1);
      assert forall j :: j in m && j != k0 ==> j in rest && rest[j] == m[j];
      if m[k0].created_at > m[k1].created_at || (m[k0].created_at == m[k1].created_at && k0 >= k1) {
        assert IsFirst(m, k0);
      } else {
        assert IsFirst(m, k1);
      }
    }
  }

  /** Every row of `m` occurs in `rows`. */
  ghost predicate Covers(rows: seq<Section>, m: map<int, Section>) {
    forall k :: k in m ==> m[k] in rows
  }

  /** Every element of `rows` is a row of `m`. */
  ghost predicate Within(rows: seq<Section>, m: map<int, Section>) {
    forall x :: x in rows ==> exists k :: k in m && m[k] == x
  }

  /** `created_at` never increases along `rows`. */
  ghost predicate NewestFirst(rows: seq<Section>) {
    forall i, j :: 0 <= i < j < |rows| ==> rows[i].created_at >= rows[j].created_at
  }

  /** `rows` lists the table `m`: every row of it, nothing else, as many as
      the table has, newest first. */
  ghost predicate IsListing(rows: seq<Section>, m: map<int, Section>) {
    |rows| == |m| && Covers(rows, m) && Within(rows, m) && NewestFirst(rows)
  }

  /** Every row of a listing of the table without `k` is a row of `m` under some other key. */
  lemma FromOthers(m: map<int, Section>, k: int, rest: seq<Section>, i: int)
    requires Within(rest, m - {k}) && 0 <= i < |rest|
    ensures exists j :: j in m && j != k && m[j] == rest[i]
  {
    var others := m - {k};
    assert rest[i] in rest;
    var j :| j in others && others[j] == rest[i];
    assert j in m && j != k && m[j] == rest[i];
  }

  lemma CoversStep(m: map<int, Section>, k: int, rest: seq<Section>)
    requires k in m && Covers(rest, m - {k})
    ensures Covers([m[k]] + rest, m)
  {
    var rows := [m[k]] + rest;
    forall j | j in m ensures m[j] in rows {
      if j != k {
        assert j in m - {k} && (m - {k})[j] == m[j];
        assert m[j] in rest;
        assert rows[1..] == rest;
      }
    }
  }

  lemma WithinStep(m: map<int, Section>, k: int, rest: seq<Section>)
    requires k in m && Within(rest, m - {k})
    ensures Within([m[k]] + rest, m)
  {
  }

  lemma NewestFirstStep(m: map<int, Section>, k: int, rest: seq<Section>)
    requires IsFirst(m, k) && Within(rest, m - {k}) && NewestFirst(rest)
    ensures NewestFirst([m[k]] + rest)
  {
    var rows := [m[k]] + rest;
    forall i, j | 0 <= i < j < |rows| ensures rows[i].created_at >= rows[j].created_at {
      assert rows[j] == rest[j - 1];
      FromOthers(m, k, rest, j - 1);
      if i > 0 {
        assert rows[i] == rest[i - 1];
      }
    }
  }

  /** Putting the first row in front of a listing of the others lists the table. */
  lemma ListingStep(m: map<int, Section>, k: int, rest: seq<Section>)
    requires IsFirst(m, k) && IsListing(rest, m - {k})
    ensures IsListing([m[k]] + rest, m)
  {
    assert (m - {k}).Keys == m.Keys - {k};
    CoversStep(m, k, rest);
    WithinStep(m, k, rest);
    NewestFirstStep(m, k, rest);
  }

  /** When rows sit under their own ids, the first row's id is not among the others'. */
  lemma DistinctStep(m: map<int, Section>, k: int, rest: seq<Section>)
    requires IsFirst(m, k) && IsListing(rest, m - {k})
    requires forall j :: j in m ==> m[j].id == j
    requires forall i, j :: 0 <= i < j < |rest| ==> rest[i].id != rest[j].id
    ensures forall i, j :: 0 <= i < j < |rest| + 1 ==> ([m[k]] + rest)[i].id != ([m[k]] + rest)[j].id
  {
    var rows := [m[k]] + rest;
    forall i | 0 < i < |rows| ensures rows[i].id != k {
      FromOthers(m, k, rest, i - 1);
    }
  }

  /** The key of the row listed first. */
  function FirstKey(m: map<int, Section>): (k: int)
    requires |m| > 0
    ensures IsFirst(m, k)
  {
    FirstExists(m);
    var k :| IsFirst(m, k);
    k
  }

  /** The rows of `m` ordered by `created_at` descending (ties by id descending). */
  function SortedRows(m: map<int, Section>): (r: seq<Section>)
    ensures IsListing(r, m)
    decreases |m|
  {
    if |m| == 0 then []
    else
      var k := FirstKey(m);
      var rest := SortedRows(m - {k});
      ListingStep(m, k, rest);
      [m[k]] + rest
  }

  /** When every row sits under its own id, the listing names no id twice. */
  lemma {:induction false} SortedRowsDistinct(m: map<int, Section>)
    ensures (forall k :: k in m ==> m[k].id == k) ==>
      forall i, j :: 0 <= i < j < |SortedRows(m)| ==> SortedRows(m)[i].id != SortedRows(m)[j].id
    decreases |m|
  {
    if |m| > 0 && forall k :: k in m ==> m[k].id == k {
      var k := FirstKey(m);
      SortedRowsDistinct(m - {k});
      DistinctStep(m, k, SortedRows(m - {k}));
    }
  }

  /** `select * order by created_at desc`. */
  function GetAllSections(db: Database, fault: Fault): (r: DataResult<seq<Section>>)
    reads db
    ensures r.WellFormed()
    ensures r.data.Some? <==> fault.NoFault?
    ensures r.data.Some? ==> IsListing(r.data.value, db.sections)
    ensures r.data.Some? && db.Valid() ==>
      forall i, j :: 0 <= i < j < |r.data.value| ==> r.data.value[i].id != r.data.value[j].id
    ensures fault.ErrorReply? ==> r.error == Some(fault.message)
    ensures fault.Exception? ==> r.error == Some(FetchAllFailed)
  {
    match fault
    case NoFault =>
      SortedRowsDistinct(db.sections);
      Found(SortedRows(db.sections))
    case ErrorReply(message) => Failed(message)
    case Exception => Failed(FetchAllFailed)
  }

  /** `select * where id = id`, `.single()`. */
  function GetSectionById(db: Database, id: int, fault: Fault): (r: DataResult<Section>)
    reads db
    ensures r.WellFormed()
    ensures r.data.Some? <==> fault.NoFault? && id in db.sections
    ensures r.data.Some? ==> r.data.value == db.sections[id]
    ensures fault.NoFault? && id !in db.sections ==> r.error == Some(NoSingleRow)
    ensures fault.ErrorReply? ==> r.error == Some(fault.message)
    ensures fault.Exception? ==> r.error == Some(FetchOneFailed)
  {
    match fault
    case NoFault => if id in db.sections then Found(db.sections[id]) else Failed(NoSingleRow)
    case ErrorReply(message) => Failed(message)
    case Exception => Failed(FetchOneFailed)
  }

  /** Inserts a row with the given fields; the store assigns `id` from its
      sequence and `created_at` from its clock (`now`). An insert that
      reaches the table uses up its sequence value even when the id is
      already taken, so the next attempt gets a new one. */
  method CreateSection(db: Database, input: NewSection, now: Timestamp, fault: Fault)
    returns (r: DataResult<Section>)
    requires db.Valid()
    modifies db
    ensures db.Valid() && r.WellFormed()
    ensures db.adminUsers == old(db.adminUsers) && db.sessions == old(db.sessions)
    ensures r.data.Some? <==> fault.NoFault? && old(db.nextSectionId) !in old(db.sections)
    ensures r.data.Some? ==>
      && r.data.value == Section(old(db.nextSectionId), input.title, input.description, input.image_url, now)
      && r.data.value.id !in old(db.sections)
      && db.sections == old(db.sections)[r.data.value.id := r.data.value]
      && db.nextSectionId == old(db.nextSectionId) + 1
      && GetSectionById(db, r.data.value.id, NoFault) == Found(r.data.value)
    ensures r.data.None? ==> db.sections == old(db.sections)
    ensures !fault.NoFault? ==> db.nextSectionId == old(db.nextSectionId)
    ensures fault.NoFault? && old(db.nextSectionId) in old(db.sections) ==>
      r.error == Some(DuplicateKey) && db.nextSectionId == old(db.nextSectionId) + 1
    ensures fault.ErrorReply? ==> r.error == Some(fault.message)
    ensures fault.Exception? ==> r.error == Some(CreateFailed)
  {
    match fault {
      case ErrorReply(message) => return Failed(message);
      case Exception => return Failed(CreateFailed);
      case NoFault =>
    }
    var id := db.nextSectionId;
    db.nextSectionId := id + 1;
    if id in db.sections {
      return Failed(DuplicateKey);
    }
    var row := Section(id, input.title, input.description, input.image_url, now);
    db.sections := db.sections[id := row];
    r := Found(row);
  }

  /** `update(patch) where id = id`, then `.single()` on the updated rows. The
      patch may change the primary key; a key already used by another row
      makes the update fail. */
  method UpdateSection(db: Database, id: int, patch: SectionPatch, fault: Fault)
    returns (r: DataResult<Section>)
    requires db.Valid()
    modifies db
    ensures db.Valid() && r.WellFormed()
    ensures db.adminUsers == old(db.adminUsers) && db.sessions == old(db.sessions)
    ensures db.nextSectionId == old(db.nextSectionId)
    ensures r.data.Some? <==>
      && fault.NoFault? && id in old(db.sections)
      && var newId := Apply(old(db.sections)[id], patch).id;
         newId == id || newId !in old(db.sections)
    ensures r.data.Some? ==>
      && r.data.value == Apply(old(db.sections)[id], patch)
      && db.sections == (old(db.sections) - {id})[r.data.value.id := r.data.value]
      && (forall k :: k in old(db.sections) && k != id ==> k in db.sections && db.sections[k] == old(db.sections)[k])
      && GetSectionById(db, r.data.value.id, NoFault) == Found(r.data.value)
    ensures r.data.None? ==> db.sections == old(db.sections)
    ensures fault.NoFault? && id !in old(db.sections) ==> r.error == Some(NoSingleRow)
    ensures fault.ErrorReply? ==> r.error == Some(fault.message)
    ensures fault.Exception? ==> r.error == Some(UpdateFailed)
  {
    match fault {
      case ErrorReply(message) => return Failed(message);
      case Exception => return Failed(UpdateFailed);
      case NoFault =>
    }
    if id !in db.sections {
      return Failed(NoSingleRow);
    }
    var row := Apply(db.sections[id], patch);
    if row.id != id && row.id in db.sections {
      return Failed(DuplicateKey);
    }
    db.sections := (db.sections - {id})[row.id := row];
    r := Found(row);
  }

  /** `delete where id = id`: succeeds whenever the store reports no error,
      also when no such row exists. */
  method DeleteSection(db: Database, id: int, fault: Fault) returns (r: Outcome)
    requires db.Valid()
    modifies db
    ensures db.Valid() && r.WellFormed()
    ensures db.adminUsers == old(db.adminUsers) && db.sessions == old(db.sessions)
    ensures db.nextSectionId == old(db.nextSectionId)
    ensures r.success <==> fault.NoFault?
    ensures db.sections == if r.success then old(db.sections) - {id} else old(db.sections)
    ensures r.success ==> GetSectionById(db, id, NoFault) == Failed(NoSingleRow)
    ensures fault.ErrorReply? ==> r.error == Some(fault.message)
    ensures fault.Exception? ==> r.error == Some(DeleteFailed)
  {
    match fault {
      case ErrorReply(message) => return Refused(message);
      case Exception => return Refused(DeleteFailed);
      case NoFault =>
    }
    db.sections := db.sections - {id};
    r := Succeeded;
  }
}
