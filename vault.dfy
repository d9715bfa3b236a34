/**
 * The vault store: CRUD over the credential records of one user. Every statement
 * is scoped to the owner's `user_id`; the secret is always stored encrypted and
 * the notes are encrypted when truthy, else stored as "".
 *
 * The `password_entries` table is an `EntryTable` object holding a map from id
 * to row and the auto-increment counter; several `PasswordEntry` objects (one per
 * request, each for one user) share it. `NOW()` is the `now` parameter, the IVs
 * the encryptor draws are parameters, and the column collation's
 * `field LIKE '%term%'` is the `like` predicate a `PasswordEntry` is built with.
 */
module Vault {
  import opened Wrappers
  import opened Strings
  import opened Crypto

  /** The category value `getAll` treats as "no filter". */
  const AllSentinel := "all"

  /** A row of `password_entries` as stored: `password` and `notes` hold blobs (or ""). */
  datatype Row = Row(
    userId: int,
    title: string,
    username: string,
    password: string,
    url: string,
    notes: string,
    category: string,
    createdAt: int,
    updatedAt: int)

  /** A row as handed to the caller, secret and notes decrypted; `None` is PHP `false`. */
  datatype Record = Record(
    id: int,
    userId: int,
    title: string,
    username: string,
    password: Option<Bytes>,
    url: string,
    notes: Option<Bytes>,
    category: string,
    createdAt: int,
    updatedAt: int)

  /** The `$data` array of `update`: `None` is a key that is absent or null (`isset` fails). */
  datatype Changes = Changes(
    title: Option<string>,
    username: Option<string>,
    password: Option<string>,
    url: Option<string>,
    notes: Option<string>,
    category: Option<string>)

  /** One `column = ?` item of the UPDATE statement `update` assembles. */
  datatype Assignment =
    | SetTitle(title: string)
    | SetUsername(username: string)
    | SetPassword(password: string)
    | SetUrl(url: string)
    | SetNotes(notes: string)
    | SetCategory(category: string)

  /**
   * Reading a stored secret back: a truthy value is decrypted, anything else reads
   * as "", so every stored value of two or more bytes goes through decryption.
   */
  function OpenField(enc: Encryption, stored: string): (r: Option<Bytes>)
    ensures !Truthy(stored) ==> r == Some("")
    ensures |stored| > 1 ==> r == enc.Decrypt(stored)
  {
    if Truthy(stored) then enc.Decrypt(stored) else Some("")
  }

  /** Storing notes: encrypted when truthy, otherwise ""; what is stored is truthy exactly when the notes are. */
  function SealNotes(enc: Encryption, notes: string, iv: Bytes): (r: string)
    requires |iv| == IvLength
    ensures !Truthy(notes) ==> r == ""
    ensures Sound(enc.prims) ==> (Truthy(r) <==> Truthy(notes))
  {
    if Truthy(notes) then enc.Encrypt(notes, iv) else ""
  }

  /** The record a stored row is returned as. */
  function Decrypted(enc: Encryption, id: int, row: Row): (r: Record)
    ensures r.id == id && r.userId == row.userId && r.createdAt == row.createdAt && r.updatedAt == row.updatedAt
    ensures r.title == row.title && r.username == row.username && r.url == row.url && r.category == row.category
    ensures !Truthy(row.password) ==> r.password == Some("")
    ensures |row.password| > 1 ==> r.password == enc.Decrypt(row.password)
    ensures !Truthy(row.notes) ==> r.notes == Some("")
    ensures |row.notes| > 1 ==> r.notes == enc.Decrypt(row.notes)
  {
    Record(id, row.userId, row.title, row.username, OpenField(enc, row.password), row.url,
           OpenField(enc, row.notes), row.category, row.createdAt, row.updatedAt)
  }

  /** The row `create` inserts. */
  function NewRow(enc: Encryption, userId: int, title: string, username: string, password: string, url: string,
                  notes: string, category: string, ivPassword: Bytes, ivNotes: Bytes, now: int): (r: Row)
    requires |ivPassword| == IvLength && |ivNotes| == IvLength
    ensures r.userId == userId && r.createdAt == now && r.updatedAt == now
    ensures r.title == title && r.username == username && r.url == url && r.category == category
    ensures Sound(enc.prims) ==> Truthy(r.password)
    ensures !Truthy(notes) ==> r.notes == ""
    ensures Sound(enc.prims) ==> (Truthy(r.notes) <==> Truthy(notes))
  {
    Row(userId, title, username, enc.Encrypt(password, ivPassword), url, SealNotes(enc, notes, ivNotes),
        category, now, now)
  }

  /** Some field of the update is set. */
  predicate HasChanges(c: Changes) {
    c.title.Some? || c.username.Some? || c.password.Some? || c.url.Some? || c.notes.Some? || c.category.Some?
  }

  /** `row` with the supplied fields replaced; `blob` and `stored` are the secret and notes to store. */
  function Overlay(row: Row, c: Changes, blob: string, stored: string): Row {
    row.(
      title := if c.title.Some? then c.title.value else row.title,
      username := if c.username.Some? then c.username.value else row.username,
      password := if c.password.Some? then blob else row.password,
      url := if c.url.Some? then c.url.value else row.url,
      notes := if c.notes.Some? then stored else row.notes,
      category := if c.category.Some? then c.category.value else row.category)
  }

  /** The row after a successful `update`: the supplied fields replaced, `updated_at` refreshed. */
  function Patched(enc: Encryption, row: Row, c: Changes, ivPassword: Bytes, ivNotes: Bytes, now: int): (r: Row)
    requires |ivPassword| == IvLength && |ivNotes| == IvLength
    ensures r.userId == row.userId && r.createdAt == row.createdAt && r.updatedAt == now
    ensures r.title == c.title.UnwrapOr(row.title) && r.username == c.username.UnwrapOr(row.username)
    ensures r.url == c.url.UnwrapOr(row.url) && r.category == c.category.UnwrapOr(row.category)
    ensures c.password.None? ==> r.password == row.password
    ensures c.password.Some? && Sound(enc.prims) ==> Truthy(r.password)
    ensures c.notes.None? ==> r.notes == row.notes
    ensures c.notes.Some? ==> (!Truthy(c.notes.value) ==> r.notes == "")
    ensures c.notes.Some? && Sound(enc.prims) ==> (Truthy(r.notes) <==> Truthy(c.notes.value))
  {
    var blob := if c.password.Some? then enc.Encrypt(c.password.value, ivPassword) else "";
    var stored := if c.notes.Some? then SealNotes(enc, c.notes.value, ivNotes) else "";
    Overlay(row, c, blob, stored).(updatedAt := now)
  }

  /** One SET item applied to a row. */
  function Assign(row: Row, a: Assignment): Row {
    match a
    case SetTitle(v) => row.(title := v)
    case SetUsername(v) => row.(username := v)
    case SetPassword(v) => row.(password := v)
    case SetUrl(v) => row.(url := v)
    case SetNotes(v) => row.(notes := v)
    case SetCategory(v) => row.(category := v)
  }

  /** The SET list applied in order. */
  function AssignAll(row: Row, fields: seq<Assignment>): Row
    decreases |fields|
  {
    if fields == [] then row else Assign(AssignAll(row, fields[..|fields| - 1]), fields[|fields| - 1])
  }

  /** The number of columns `update` may set. */
  const ColumnCount: nat := 6

  /** The position of an item's column in `update`'s order: title, username, password, url, notes, category. */
  function Column(a: Assignment): nat {
    match a
    case SetTitle(_) => 0
    case SetUsername(_) => 1
    case SetPassword(_) => 2
    case SetUrl(_) => 3
    case SetNotes(_) => 4
    case SetCategory(_) => 5
  }

  /** Whether the update supplies the column at position `col`. */
  predicate Supplied(c: Changes, col: nat) {
    match col
    case 0 => c.title.Some?
    case 1 => c.username.Some?
    case 2 => c.password.Some?
    case 3 => c.url.Some?
    case 4 => c.notes.Some?
    case 5 => c.category.Some?
    case _ => false
  }

  /** How many of the first `n` columns the update supplies. */
  function SuppliedBelow(c: Changes, n: nat): nat {
    if n == 0 then 0 else SuppliedBelow(c, n - 1) + (if Supplied(c, n - 1) then 1 else 0)
  }

  /** Some column is supplied exactly when the update has a change. */
  lemma SuppliedAll(c: Changes)
    ensures SuppliedBelow(c, ColumnCount) == 0 <==> !HasChanges(c)
  {
    assert SuppliedBelow(c, 1) == (if c.title.Some? then 1 else 0);
    assert SuppliedBelow(c, 3) == SuppliedBelow(c, 1) + (if c.username.Some? then 1 else 0)
                                  + (if c.password.Some? then 1 else 0);
    assert SuppliedBelow(c, 5) == SuppliedBelow(c, 3) + (if c.url.Some? then 1 else 0)
                                  + (if c.notes.Some? then 1 else 0);
  }

  /** No column in `[lo, hi)` is supplied. */
  predicate NoneSupplied(c: Changes, lo: nat, hi: nat) {
    forall col: nat :: lo <= col < hi ==> !Supplied(c, col)
  }

  /** The columns of `[lo, hi)`, one by one, are absent from the update. */
  lemma Unsupplied(c: Changes, lo: nat, hi: nat)
    requires NoneSupplied(c, lo, hi)
    ensures lo <= 0 < hi ==> c.title.None?
    ensures lo <= 1 < hi ==> c.username.None?
    ensures lo <= 2 < hi ==> c.password.None?
    ensures lo <= 3 < hi ==> c.url.None?
    ensures lo <= 4 < hi ==> c.notes.None?
    ensures lo <= 5 < hi ==> c.category.None?
  {
    assert lo <= 0 < hi ==> !Supplied(c, 0);
    assert lo <= 1 < hi ==> !Supplied(c, 1);
    assert lo <= 2 < hi ==> !Supplied(c, 2);
    assert lo <= 3 < hi ==> !Supplied(c, 3);
    assert lo <= 4 < hi ==> !Supplied(c, 4);
    assert lo <= 5 < hi ==> !Supplied(c, 5);
  }

  /** Unsupplied columns add nothing to the count. */
  lemma {:induction false} NoneSuppliedCount(c: Changes, lo: nat, hi: nat)
    requires lo <= hi && NoneSupplied(c, lo, hi)
    ensures SuppliedBelow(c, hi) == SuppliedBelow(c, lo)
    decreases hi
  {
    if lo < hi {
      NoneSuppliedCount(c, lo, hi - 1);
    }
  }

  /** The item sets its column to what the update supplies for it (the encrypted `blob` and `stored` for secret and notes). */
  predicate Carries(c: Changes, blob: string, stored: string, a: Assignment) {
    match a
    case SetTitle(v) => c.title == Some(v)
    case SetUsername(v) => c.username == Some(v)
    case SetPassword(v) => c.password.Some? && v == blob
    case SetUrl(v) => c.url == Some(v)
    case SetNotes(v) => c.notes.Some? && v == stored
    case SetCategory(v) => c.category == Some(v)
  }

  /**
   * `fields` sets, once each and in column order, exactly the supplied columns
   * before `n`, each to its supplied value: its last item is the last supplied
   * column before `n`, and the rest lists the supplied columns before that one.
   */
  ghost predicate ListedBelow(c: Changes, blob: string, stored: string, fields: seq<Assignment>, n: nat)
    decreases |fields|
  {
    if fields == [] then NoneSupplied(c, 0, n)
    else
      var last := fields[|fields| - 1];
      && Column(last) < n && Carries(c, blob, stored, last) && NoneSupplied(c, Column(last) + 1, n)
      && ListedBelow(c, blob, stored, fields[..|fields| - 1], Column(last))
  }

  /** A listed prefix of the columns is strictly increasing, all supplied, and as long as the supplied count. */
  lemma {:induction false} ListedFacts(c: Changes, blob: string, stored: string, fields: seq<Assignment>, n: nat)
    requires ListedBelow(c, blob, stored, fields, n)
    ensures forall i, j :: 0 <= i < j < |fields| ==> Column(fields[i]) < Column(fields[j])
    ensures forall i :: 0 <= i < |fields| ==> Column(fields[i]) < n && Supplied(c, Column(fields[i]))
    ensures |fields| == SuppliedBelow(c, n)
    decreases |fields|
  {
    if fields == [] {
      NoneSuppliedCount(c, 0, n);
    } else {
      var rest, last := fields[..|fields| - 1], fields[|fields| - 1];
      ListedFacts(c, blob, stored, rest, Column(last));
      assert forall i :: 0 <= i < |rest| ==> fields[i] == rest[i];
      assert Supplied(c, Column(last));
      NoneSuppliedCount(c, Column(last) + 1, n);
    }
  }

  /** `row` with the supplied columns before `n` replaced. */
  function OverlayBelow(row: Row, c: Changes, blob: string, stored: string, n: nat): Row {
    row.(
      title := if 0 < n && c.title.Some? then c.title.value else row.title,
      username := if 1 < n && c.username.Some? then c.username.value else row.username,
      password := if 2 < n && c.password.Some? then blob else row.password,
      url := if 3 < n && c.url.Some? then c.url.value else row.url,
      notes := if 4 < n && c.notes.Some? then stored else row.notes,
      category := if 5 < n && c.category.Some? then c.category.value else row.category)
  }

  /** A listed prefix of the columns, applied to a row, replaces exactly the supplied columns before `n`. */
  lemma {:induction false} ListedEffect(row: Row, c: Changes, blob: string, stored: string, fields: seq<Assignment>, n: nat)
    requires ListedBelow(c, blob, stored, fields, n)
    ensures AssignAll(row, fields) == OverlayBelow(row, c, blob, stored, n)
    decreases |fields|
  {
    if fields == [] {
      Unsupplied(c, 0, n);
    } else {
      var rest, last := fields[..|fields| - 1], fields[|fields| - 1];
      ListedEffect(row, c, blob, stored, rest, Column(last));
      Unsupplied(c, Column(last) + 1, n);
    }
  }

  /** A list of all six columns: one item per supplied field, in order, with exactly the update's effect. */
  lemma ListedComplete(row: Row, c: Changes, blob: string, stored: string, fields: seq<Assignment>)
    requires ListedBelow(c, blob, stored, fields, ColumnCount)
    ensures forall i, j :: 0 <= i < j < |fields| ==> Column(fields[i]) < Column(fields[j])
    ensures forall i :: 0 <= i < |fields| ==> Supplied(c, Column(fields[i]))
    ensures |fields| == SuppliedBelow(c, ColumnCount)
    ensures fields == [] <==> !HasChanges(c)
    ensures AssignAll(row, fields) == Overlay(row, c, blob, stored)
  {
    ListedEffect(row, c, blob, stored, fields, ColumnCount);
    ListedFacts(c, blob, stored, fields, ColumnCount);
    SuppliedAll(c);
  }

  /** The item `update` adds for a supplied column. */
  function ItemAt(c: Changes, blob: string, stored: string, col: nat): (a: Assignment)
    requires Supplied(c, col)
    ensures Column(a) == col && Carries(c, blob, stored, a)
  {
    match col
    case 0 => SetTitle(c.title.value)
    case 1 => SetUsername(c.username.value)
    case 2 => SetPassword(blob)
    case 3 => SetUrl(c.url.value)
    case 4 => SetNotes(stored)
    case 5 => SetCategory(c.category.value)
  }

  /** The SET list after the `isset` checks of the first `n` columns. */
  function Expected(c: Changes, blob: string, stored: string, n: nat): seq<Assignment> {
    if n == 0 then []
    else Expected(c, blob, stored, n - 1) + (if Supplied(c, n - 1) then [ItemAt(c, blob, stored, n - 1)] else [])
  }

  /** The list after the first `n` checks sets the supplied columns before `n`, in order. */
  lemma {:induction false} ExpectedListed(c: Changes, blob: string, stored: string, n: nat)
    ensures ListedBelow(c, blob, stored, Expected(c, blob, stored, n), n)
  {
    if n > 0 {
      var before := Expected(c, blob, stored, n - 1);
      ExpectedListed(c, blob, stored, n - 1);
      if Supplied(c, n - 1) {
        var fields := before + [ItemAt(c, blob, stored, n - 1)];
        assert fields[..|before|] == before;
      } else {
        assert before + [] == before;
        SkipColumn(c, blob, stored, before, n - 1);
      }
    }
  }

  /** A column the update does not supply adds no item. */
  lemma SkipColumn(c: Changes, blob: string, stored: string, fields: seq<Assignment>, n: nat)
    requires ListedBelow(c, blob, stored, fields, n) && !Supplied(c, n)
    ensures ListedBelow(c, blob, stored, fields, n + 1)
  {
  }

  /**
   * One `if (isset($data[…]))` step of `update`: appends `item` when its column is
   * supplied.
   */
  method AddIfSet(ghost c: Changes, ghost blob: string, ghost stored: string, fields: seq<Assignment>,
                  supplied: bool, item: Assignment)
    returns (more: seq<Assignment>)
    requires fields == Expected(c, blob, stored, Column(item))
    requires supplied == Supplied(c, Column(item)) && (supplied ==> item == ItemAt(c, blob, stored, Column(item)))
    ensures more == Expected(c, blob, stored, Column(item) + 1)
  {
    if supplied {
      more := fields + [item];
    } else {
      more := fields;
    }
  }

  /**
   * `update`'s SET list, assembled column by column: one item per supplied field,
   * in the order title, username, password, url, notes, category; empty exactly
   * when no field is supplied; and applied to `row` it replaces exactly the
   * supplied fields.
   */
  method SetList(ghost row: Row, c: Changes, blob: string, stored: string) returns (fields: seq<Assignment>)
    ensures forall i, j :: 0 <= i < j < |fields| ==> Column(fields[i]) < Column(fields[j])
    ensures forall i :: 0 <= i < |fields| ==> Supplied(c, Column(fields[i]))
    ensures |fields| == SuppliedBelow(c, ColumnCount)
    ensures fields == [] <==> !HasChanges(c)
    ensures AssignAll(row, fields) == Overlay(row, c, blob, stored)
  {
    fields := AddIfSet(c, blob, stored, [], c.title.Some?, SetTitle(c.title.UnwrapOr("")));
    fields := AddIfSet(c, blob, stored, fields, c.username.Some?, SetUsername(c.username.UnwrapOr("")));
    fields := AddIfSet(c, blob, stored, fields, c.password.Some?, SetPassword(blob));
    fields := AddIfSet(c, blob, stored, fields, c.url.Some?, SetUrl(c.url.UnwrapOr("")));
    fields := AddIfSet(c, blob, stored, fields, c.notes.Some?, SetNotes(stored));
    fields := AddIfSet(c, blob, stored, fields, c.category.Some?, SetCategory(c.category.UnwrapOr("")));
    ExpectedListed(c, blob, stored, ColumnCount);
    ListedComplete(row, c, blob, stored, fields);
  }

  /** Ids of the rows owned by `uid`. */
  function Owned(rows: map<int, Row>, uid: int): set<int> {
    set id | id in rows && rows[id].userId == uid
  }

  /** The rows of every other user: what no operation of `uid` may touch. */
  function Others(rows: map<int, Row>, uid: int): map<int, Row> {
    map id | id in rows && rows[id].userId != uid :: rows[id]
  }

  /** The category filter `getAll` applies: only a truthy category other than "all". */
  function CategoryFilter(category: Option<string>): (r: Option<string>)
    ensures r == None || r == category
    ensures r.Some? ==> r.value != "" && r.value != "0" && r.value != AllSentinel
    ensures category.Some? && |category.value| > 1 && category.value != AllSentinel ==> r == category
  {
    if category.Some? && Truthy(category.value) && category.value != AllSentinel then category else None
  }

  /** The search term `getAll` applies: only a truthy one. */
  function SearchTerm(search: Option<string>): (r: Option<string>)
    ensures r == None || r == search
    ensures r.Some? ==> r.value != "" && r.value != "0"
    ensures search.Some? && |search.value| > 1 ==> r == search
  {
    if search.Some? && Truthy(search.value) then search else None
  }

  /** The WHERE clause of `getAll`: only the owner's rows, and without filters all of them. */
  predicate Selected(row: Row, uid: int, category: Option<string>, search: Option<string>,
                     like: (string, string) -> bool): (r: bool)
    ensures r ==> row.userId == uid
    ensures CategoryFilter(category).None? && SearchTerm(search).None? ==> (r <==> row.userId == uid)
    ensures r && CategoryFilter(category).Some? ==> row.category == category.value
  {
    && row.userId == uid
    && (CategoryFilter(category).Some? ==> row.category == CategoryFilter(category).value)
    && (SearchTerm(search).Some? ==>
          var t := SearchTerm(search).value;
          like(row.title, t) || like(row.username, t) || like(row.url, t))
  }

  /** The category "all", an empty category and an empty search term each select what no filter selects. */
  lemma NoFilterValues(row: Row, uid: int, category: Option<string>, search: Option<string>,
                       like: (string, string) -> bool)
    ensures Selected(row, uid, Some(AllSentinel), search, like) <==> Selected(row, uid, None, search, like)
    ensures Selected(row, uid, Some(""), search, like) <==> Selected(row, uid, None, search, like)
    ensures Selected(row, uid, category, Some(""), like) <==> Selected(row, uid, category, None, like)
  {
  }

  /** Ids of the rows `getAll` returns. */
  function Matching(rows: map<int, Row>, uid: int, category: Option<string>, search: Option<string>,
                    like: (string, string) -> bool): set<int> {
    set id | id in rows && Selected(rows[id], uid, category, search, like)
  }

  /** The ids of a list of fetched rows. */
  function IdsOf(rs: seq<(int, Row)>): set<int> {
    set p | p in rs :: p.0
  }

  /** Rows fetched in `ORDER BY updated_at DESC` order. */
  predicate NewestFirst(rs: seq<(int, Row)>) {
    forall i, j :: 0 <= i < j < |rs| ==> rs[i].1.updatedAt >= rs[j].1.updatedAt
  }

  /** The newest row of a newest-first list is at least as new as any row placed behind it. */
  lemma HeadDominates(rs: seq<(int, Row)>, p: (int, Row), t: seq<(int, Row)>)
    requires rs != [] && NewestFirst(rs) && p.1.updatedAt < rs[0].1.updatedAt
    requires forall x :: x in t ==> x in rs[1..] || x == p
    ensures forall j :: 0 <= j < |t| ==> rs[0].1.updatedAt >= t[j].1.updatedAt
  {
    forall j | 0 <= j < |t| ensures rs[0].1.updatedAt >= t[j].1.updatedAt {
      if t[j] != p {
        assert t[j] in rs[1..];
        var k :| 0 <= k < |rs[1..]| && rs[1..][k] == t[j];
        assert rs[k + 1] == t[j];
      }
    }
  }

  /** A row at least as new as every row of a newest-first list can go in front of it. */
  lemma ConsNewestFirst(h: (int, Row), t: seq<(int, Row)>)
    requires NewestFirst(t) && forall j :: 0 <= j < |t| ==> h.1.updatedAt >= t[j].1.updatedAt
    ensures NewestFirst([h] + t)
  {
    var r := [h] + t;
    forall i, j | 0 <= i < j < |r| ensures r[i].1.updatedAt >= r[j].1.updatedAt {
      assert r[j] == t[j - 1];
      if i > 0 {
        assert r[i] == t[i - 1];
      }
    }
  }

  /** Places one fetched row into a newest-first list. */
  function InsertNewestFirst(p: (int, Row), rs: seq<(int, Row)>): (r: seq<(int, Row)>)
    requires NewestFirst(rs)
    ensures NewestFirst(r)
    ensures |r| == |rs| + 1
    ensures forall x :: x in r <==> x in rs || x == p
    ensures multiset(r) == multiset(rs) + multiset{p}
    decreases |rs|
  {
    if rs == [] then [p]
    else if p.1.updatedAt >= rs[0].1.updatedAt then
      ConsNewestFirst(p, rs);
      [p] + rs
    else
      var t := InsertNewestFirst(p, rs[1..]);
      HeadDominates(rs, p, t);
      ConsNewestFirst(rs[0], t);
      assert rs == [rs[0]] + rs[1..];
      [rs[0]] + t
  }

  /** `rs` holds the rows with the ids in `done`, each once, newest first. */
  ghost predicate Fetched(rows: map<int, Row>, done: set<int>, rs: seq<(int, Row)>) {
    && NewestFirst(rs)
    && |rs| == |done|
    && IdsOf(rs) == done
    && (forall p :: p in rs ==> p.0 in rows && p.1 == rows[p.0])
  }

  /** Fetching one more of the selected rows keeps the fetched list complete and ordered. */
  lemma FetchOne(rows: map<int, Row>, selected: set<int>, remaining: set<int>, rs: seq<(int, Row)>, key: int)
    requires Fetched(rows, selected - remaining, rs) && key in rows && key in remaining && remaining <= selected
    ensures Fetched(rows, selected - (remaining - {key}), InsertNewestFirst((key, rows[key]), rs))
  {
    var next := InsertNewestFirst((key, rows[key]), rs);
    assert IdsOf(next) == IdsOf(rs) + {key};
    assert selected - (remaining - {key}) == (selected - remaining) + {key};
  }

  /** Decrypting a complete, ordered fetch gives every selected row once, newest first. */
  lemma Listing(enc: Encryption, rows: map<int, Row>, uid: int, category: Option<string>, search: Option<string>,
                like: (string, string) -> bool, rs: seq<(int, Row)>, records: seq<Record>)
    requires Fetched(rows, Matching(rows, uid, category, search, like), rs)
    requires |records| == |rs|
    requires forall k :: 0 <= k < |rs| ==> records[k] == Decrypted(enc, rs[k].0, rs[k].1)
    ensures |records| == |Matching(rows, uid, category, search, like)|
    ensures forall k :: 0 <= k < |records| ==>
      && records[k].id in Matching(rows, uid, category, search, like)
      && records[k].userId == uid
      && records[k] == Decrypted(enc, records[k].id, rows[records[k].id])
    ensures forall id :: id in Matching(rows, uid, category, search, like) ==>
      exists k :: 0 <= k < |records| && records[k].id == id
    ensures forall i, j :: 0 <= i < j < |records| ==> records[i].updatedAt >= records[j].updatedAt
  {
    var selected := Matching(rows, uid, category, search, like);
    forall k | 0 <= k < |records|
      ensures records[k].id in selected && records[k].userId == uid
    {
      assert rs[k] in rs;
      assert rs[k].0 in IdsOf(rs);
    }
    forall id | id in selected
      ensures exists k :: 0 <= k < |records| && records[k].id == id
    {
      var p :| p in rs && p.0 == id;
      var k :| 0 <= k < |rs| && rs[k] == p;
      assert records[k].id == id;
    }
  }

  /** A non-empty set of ids has a member to pick. */
  lemma Occupied(s: set<int>)
    requires s != {}
    ensures exists x :: x in s
  {
    if forall x :: x !in s {
      assert false;
    }
  }

  /** The categories of `uid`'s rows. */
  function Categories(rows: map<int, Row>, uid: int): set<string> {
    set id | id in rows && rows[id].userId == uid :: rows[id].category
  }

  /** Ids of `uid`'s rows whose category is in `cats`. */
  function OwnedIn(rows: map<int, Row>, uid: int, cats: set<string>): set<int> {
    set id | id in rows && rows[id].userId == uid && rows[id].category in cats
  }

  /** The categories a `GROUP BY category` result lists. */
  function Listed(counts: seq<(string, nat)>): set<string> {
    set p | p in counts :: p.0
  }

  /** Sum of the counts of a `GROUP BY` result. */
  function Sum(counts: seq<(string, nat)>): nat
    decreases |counts|
  {
    if counts == [] then 0 else counts[0].1 + Sum(counts[1..])
  }

  /** One line per category, each with the number of `uid`'s rows in it. */
  ghost predicate CountsExact(counts: seq<(string, nat)>, rows: map<int, Row>, uid: int) {
    && (forall i, j :: 0 <= i < j < |counts| ==> counts[i].0 != counts[j].0)
    && (forall i :: 0 <= i < |counts| ==> counts[i].1 == |OwnedIn(rows, uid, {counts[i].0})|)
  }

  lemma CountsExactTail(counts: seq<(string, nat)>, rows: map<int, Row>, uid: int)
    requires counts != [] && CountsExact(counts, rows, uid)
    ensures CountsExact(counts[1..], rows, uid)
    ensures counts[0].0 !in Listed(counts[1..])
    ensures Listed(counts) == {counts[0].0} + Listed(counts[1..])
  {
    var rest := counts[1..];
    forall p | p in rest ensures p.0 != counts[0].0 {
      var k :| 0 <= k < |rest| && rest[k] == p;
      assert counts[k + 1] == p;
    }
    assert counts == [counts[0]] + rest;
  }

  lemma OwnedInSplit(rows: map<int, Row>, uid: int, c: string, cats: set<string>)
    requires c !in cats
    ensures |OwnedIn(rows, uid, {c} + cats)| == |OwnedIn(rows, uid, {c})| + |OwnedIn(rows, uid, cats)|
  {
    var here, there := OwnedIn(rows, uid, {c}), OwnedIn(rows, uid, cats);
    assert OwnedIn(rows, uid, {c} + cats) == here + there;
    assert here * there == {};
  }

  /** The counts of distinct categories add up to the rows in those categories. */
  lemma {:induction false} SumOfCounts(counts: seq<(string, nat)>, rows: map<int, Row>, uid: int)
    requires CountsExact(counts, rows, uid)
    ensures Sum(counts) == |OwnedIn(rows, uid, Listed(counts))|
    decreases |counts|
  {
    if counts == [] {
      assert OwnedIn(rows, uid, Listed(counts)) == {};
    } else {
      CountsExactTail(counts, rows, uid);
      SumOfCounts(counts[1..], rows, uid);
      OwnedInSplit(rows, uid, counts[0].0, Listed(counts[1..]));
    }
  }

  /** `getCountByCategory` and `getTotalCount` agree: the per-category counts sum to the total. */
  lemma CountsSumToTotal(counts: seq<(string, nat)>, rows: map<int, Row>, uid: int)
    requires CountsExact(counts, rows, uid) && Listed(counts) == Categories(rows, uid)
    ensures Sum(counts) == |Owned(rows, uid)|
  {
    SumOfCounts(counts, rows, uid);
    forall id | id in Owned(rows, uid) ensures id in OwnedIn(rows, uid, Categories(rows, uid)) {
      assert rows[id].category in Categories(rows, uid);
    }
    assert OwnedIn(rows, uid, Categories(rows, uid)) == Owned(rows, uid);
  }

  /** A stored secret is never falsy, so it is always decrypted on the way out. */
  lemma SealedIsTruthy(enc: Encryption, data: Bytes, iv: Bytes)
    requires Sound(enc.prims) && |iv| == IvLength
    ensures Truthy(enc.Encrypt(data, iv))
  {
    assert |enc.Encrypt(data, iv)| > 1;
  }

  /** A stored secret reads back as itself. */
  lemma SecretReadBack(enc: Encryption, data: Bytes, iv: Bytes)
    requires Sound(enc.prims) && |enc.key| == KeyLength && |iv| == IvLength
    ensures OpenField(enc, enc.Encrypt(data, iv)) == Some(data)
  {
    SealedIsTruthy(enc, data, iv);
    RoundTrip(enc, data, iv);
  }

  /** Stored notes read back as themselves when truthy, and as "" otherwise. */
  lemma NotesReadBack(enc: Encryption, notes: Bytes, iv: Bytes)
    requires Sound(enc.prims) && |enc.key| == KeyLength && |iv| == IvLength
    ensures OpenField(enc, SealNotes(enc, notes, iv)) == Some(if Truthy(notes) then notes else "")
  {
    if Truthy(notes) {
      SecretReadBack(enc, notes, iv);
    }
  }

  /**
   * What `create` stores reads back as what was given: the secret itself, the
   * notes when truthy and "" otherwise (notes "0" come back as "").
   */
  lemma CreateReadBack(enc: Encryption, id: int, userId: int, title: string, username: string,
                       password: string, url: string, notes: string, category: string,
                       ivPassword: Bytes, ivNotes: Bytes, now: int)
    requires Sound(enc.prims) && |enc.key| == KeyLength
    requires |ivPassword| == IvLength && |ivNotes| == IvLength
    ensures Decrypted(enc, id, NewRow(enc, userId, title, username, password, url, notes, category,
                                      ivPassword, ivNotes, now))
         == Record(id, userId, title, username, Some(password), url,
                   Some(if Truthy(notes) then notes else ""), category, now, now)
  {
    SecretReadBack(enc, password, ivPassword);
    NotesReadBack(enc, notes, ivNotes);
  }

  /**
   * After `update`, the supplied fields read back as supplied (notes when truthy,
   * else ""), every other field reads as before, and owner and creation time stay.
   */
  lemma UpdateReadBack(enc: Encryption, id: int, row: Row, c: Changes, ivPassword: Bytes, ivNotes: Bytes, now: int)
    requires Sound(enc.prims) && |enc.key| == KeyLength
    requires |ivPassword| == IvLength && |ivNotes| == IvLength
    ensures var before, after := Decrypted(enc, id, row), Decrypted(enc, id, Patched(enc, row, c, ivPassword, ivNotes, now));
      && after.userId == row.userId && after.createdAt == row.createdAt && after.updatedAt == now
      && after.title == (if c.title.Some? then c.title.value else before.title)
      && after.username == (if c.username.Some? then c.username.value else before.username)
      && after.password == (if c.password.Some? then Some(c.password.value) else before.password)
      && after.url == (if c.url.Some? then c.url.value else before.url)
      && after.notes == (if c.notes.Some? then Some(if Truthy(c.notes.value) then c.notes.value else "")
                         else before.notes)
      && after.category == (if c.category.Some? then c.category.value else before.category)
  {
    if c.password.Some? {
      SecretReadBack(enc, c.password.value, ivPassword);
    }
    if c.notes.Some? {
      NotesReadBack(enc, c.notes.value, ivNotes);
    }
  }

  /** The search of `getAll` never looks at the stored secret or notes. */
  lemma SearchIgnoresSecrets(row: Row, uid: int, category: Option<string>, search: Option<string>,
                             like: (string, string) -> bool, password: string, notes: string)
    ensures Selected(row.(password := password, notes := notes), uid, category, search, like)
        <==> Selected(row, uid, category, search, like)
  {
  }

  /** The shared `password_entries` table. */
  class EntryTable {
    var rows: map<int, Row>
    var nextId: int

    ghost predicate Valid()
      reads this
    {
      nextId > 0 && forall id :: id in rows ==> 0 < id < nextId
    }

    constructor ()
      ensures Valid() && rows == map[] && nextId == 1
    {
      rows := map[];
      nextId := 1;
    }
  }

  /** `PasswordEntry`: the vault operations of one user over the shared table. */
  class PasswordEntry {
    const table: EntryTable
    const enc: Encryption
    const userId: int
    /** `like(field, term)`: `field LIKE '%term%'` under the column collation. */
    const like: (string, string) -> bool

    constructor (table: EntryTable, enc: Encryption, userId: int, like: (string, string) -> bool)
      ensures this.table == table && this.enc == enc && this.userId == userId && this.like == like
    {
      this.table := table;
      this.enc := enc;
      this.userId := userId;
      this.like := like;
    }

    /**
     * `create`: inserts one row owned by this user under the next id and returns
     * that id; the secret is encrypted, the notes only when truthy.
     */
    method Create(title: string, username: string, password: string, url: string, notes: string,
                  category: string, ivPassword: Bytes, ivNotes: Bytes, now: int) returns (id: int)
      requires table.Valid() && |ivPassword| == IvLength && |ivNotes| == IvLength
      modifies table
      ensures table.Valid()
      ensures id == old(table.nextId) && id !in old(table.rows) && table.nextId == id + 1
      ensures table.rows == old(table.rows)[id := NewRow(enc, userId, title, username, password, url, notes,
                                                         category, ivPassword, ivNotes, now)]
      ensures Others(table.rows, userId) == Others(old(table.rows), userId)
    {
      var encryptedPassword := enc.Encrypt(password, ivPassword);
      var encryptedNotes := if Truthy(notes) then enc.Encrypt(notes, ivNotes) else "";
      id := table.nextId;
      table.rows := table.rows[id := Row(userId, title, username, encryptedPassword, url, encryptedNotes,
                                         category, now, now)];
      table.nextId := table.nextId + 1;
    }

    /**
     * The SELECT of `getAll`: this user's rows passing the category and search
     * filters, each exactly once, newest first.
     */
    method Select(category: Option<string>, search: Option<string>) returns (result: seq<(int, Row)>)
      ensures Fetched(table.rows, Matching(table.rows, userId, category, search, like), result)
    {
      var selected := Matching(table.rows, userId, category, search, like);
      var remaining := selected;
      result := [];
      while remaining != {}
        invariant remaining <= selected <= table.rows.Keys
        invariant Fetched(table.rows, selected - remaining, result)
        decreases remaining
      {
        Occupied(remaining);
        var key :| key in remaining;
        FetchOne(table.rows, selected, remaining, result, key);
        result := InsertNewestFirst((key, table.rows[key]), result);
        remaining := remaining - {key};
      }
    }

    /** The by-reference `foreach` of `getAll`: each fetched row with its secret and notes decrypted. */
    method DecryptAll(rows: seq<(int, Row)>) returns (records: seq<Record>)
      ensures |records| == |rows|
      ensures forall k :: 0 <= k < |rows| ==> records[k] == Decrypted(enc, rows[k].0, rows[k].1)
    {
      records := [];
      var i := 0;
      while i < |rows|
        invariant 0 <= i <= |rows|
        invariant |records| == i
        invariant forall k :: 0 <= k < i ==> records[k] == Decrypted(enc, rows[k].0, rows[k].1)
      {
        records := records + [Decrypted(enc, rows[i].0, rows[i].1)];
        i := i + 1;
      }
    }

    /**
     * `getAll`: this user's rows passing the filters, each exactly once, newest
     * first, with secret and notes decrypted; the search never looks at the
     * secret or notes.
     */
    method GetAll(category: Option<string>, search: Option<string>) returns (records: seq<Record>)
      ensures |records| == |Matching(table.rows, userId, category, search, like)|
      ensures forall k :: 0 <= k < |records| ==>
        && records[k].id in Matching(table.rows, userId, category, search, like)
        && records[k].userId == userId
        && records[k] == Decrypted(enc, records[k].id, table.rows[records[k].id])
      ensures forall id :: id in Matching(table.rows, userId, category, search, like) ==>
        exists k :: 0 <= k < |records| && records[k].id == id
      ensures forall i, j :: 0 <= i < j < |records| ==> records[i].updatedAt >= records[j].updatedAt
    {
      var rows := Select(category, search);
      records := DecryptAll(rows);
      Listing(enc, table.rows, userId, category, search, like, rows, records);
    }

    /**
     * `getById`: the decrypted record when the id exists and belongs to this user;
     * `None` (PHP `false`) alike for a missing id and for another user's row.
     */
    method GetById(id: int) returns (r: Option<Record>)
      ensures r.Some? <==> id in table.rows && table.rows[id].userId == userId
      ensures r.Some? ==> r.value == Decrypted(enc, id, table.rows[id])
    {
      if id in table.rows && table.rows[id].userId == userId {
        var row := table.rows[id];
        r := Some(Decrypted(enc, id, row));
      } else {
        r := None;
      }
    }

    /**
     * `update`: fails and changes nothing when the row is not this user's or no
     * field is set; otherwise rewrites exactly the supplied fields and `updated_at`.
     */
    method Update(id: int, changes: Changes, ivPassword: Bytes, ivNotes: Bytes, now: int) returns (ok: bool)
      requires table.Valid() && |ivPassword| == IvLength && |ivNotes| == IvLength
      modifies table
      ensures table.Valid() && table.nextId == old(table.nextId)
      ensures ok <==> id in old(table.rows) && old(table.rows)[id].userId == userId && HasChanges(changes)
      ensures ok ==> table.rows == old(table.rows)[id := Patched(enc, old(table.rows)[id], changes, ivPassword, ivNotes, now)]
      ensures !ok ==> table.rows == old(table.rows)
      ensures Others(table.rows, userId) == Others(old(table.rows), userId)
    {
      if !(id in table.rows && table.rows[id].userId == userId) {
        return false;
      }
      var row := table.rows[id];
      var blob := if changes.password.Some? then enc.Encrypt(changes.password.value, ivPassword) else "";
      var stored := if changes.notes.Some? then SealNotes(enc, changes.notes.value, ivNotes) else "";
      var fields := SetList(row, changes, blob, stored);
      if fields == [] {
        return false;
      }
      table.rows := table.rows[id := AssignAll(row, fields).(updatedAt := now)];
      ok := true;
    }

    /**
     * `delete`: removes the row only when it is this user's; the statement
     * succeeds, and `true` is returned, whether or not a row matched.
     */
    method Delete(id: int) returns (ok: bool)
      requires table.Valid()
      modifies table
      ensures table.Valid() && table.nextId == old(table.nextId)
      ensures ok
      ensures table.rows == if id in old(table.rows) && old(table.rows)[id].userId == userId
                            then old(table.rows) - {id} else old(table.rows)
      ensures Others(table.rows, userId) == Others(old(table.rows), userId)
    {
      if id in table.rows && table.rows[id].userId == userId {
        table.rows := table.rows - {id};
      }
      ok := true;
    }

    /** `getCategories`: this user's distinct categories, in ascending order. */
    method GetCategories() returns (cats: seq<string>)
      ensures StrictlySorted(cats)
      ensures forall c :: c in cats <==> c in Categories(table.rows, userId)
    {
      var owned := Owned(table.rows, userId);
      var remaining := owned;
      cats := [];
      while remaining != {}
        invariant remaining <= owned
        invariant StrictlySorted(cats)
        invariant forall c :: c in cats <==> exists id :: id in owned - remaining && table.rows[id].category == c
        decreases remaining
      {
        Occupied(remaining);
        var key :| key in remaining;
        cats := InsertSorted(table.rows[key].category, cats);
        remaining := remaining - {key};
      }
    }

    /** `getCountByCategory`: one line per category of this user, with its row count. */
    method GetCountByCategory() returns (counts: seq<(string, nat)>)
      ensures CountsExact(counts, table.rows, userId)
      ensures Listed(counts) == Categories(table.rows, userId)
    {
      var all := Categories(table.rows, userId);
      var remaining := all;
      counts := [];
      while remaining != {}
        invariant remaining <= all
        invariant CountsExact(counts, table.rows, userId)
        invariant Listed(counts) == all - remaining
        decreases remaining
      {
        var c :| c in remaining;
        var n := |OwnedIn(table.rows, userId, {c})|;
        assert Listed(counts + [(c, n)]) == Listed(counts) + {c};
        counts := counts + [(c, n)];
        remaining := remaining - {c};
      }
    }

    /** `getTotalCount`: the number of this user's rows. */
    method GetTotalCount() returns (n: nat)
      ensures n == |Owned(table.rows, userId)|
    {
      n := |set id | id in table.rows && table.rows[id].userId == userId|;
    }
  }

  /**
   * Two users over one table: a row the first creates is invisible to the second,
   * who can neither update nor delete it, and reads back intact for its owner.
   */
  method Isolation(alice: PasswordEntry, bob: PasswordEntry, title: string, password: string,
                   ivPassword: Bytes, ivNotes: Bytes, now: int)
    returns (seen: Option<Record>, changed: bool, mine: Option<Record>)
    requires alice.table == bob.table && alice.userId != bob.userId && alice.enc == bob.enc
    requires alice.table.Valid() && |ivPassword| == IvLength && |ivNotes| == IvLength
    requires Sound(alice.enc.prims) && |alice.enc.key| == KeyLength
    modifies alice.table
    ensures seen == None && !changed
    ensures mine.Some?
    ensures mine.value == Record(mine.value.id, alice.userId, title, "", Some(password), "", Some(""), "general", now, now)
  {
    var id := alice.Create(title, "", password, "", "", "general", ivPassword, ivNotes, now);
    seen := bob.GetById(id);
    changed := bob.Update(id, Changes(None, None, Some("stolen"), None, None, None), ivPassword, ivNotes, now + 1);
    var deleted := bob.Delete(id);
    mine := alice.GetById(id);
    CreateReadBack(alice.enc, id, alice.userId, title, "", password, "", "", "general", ivPassword, ivNotes, now);
  }
}
