/**
 * The frozen scope of an export and its check (scripts/packaged_acceptance/
 * exports.py, lines 8-63). The disk maps a managed path to what resolving,
 * `lstat`, `stat` and hashing say of it.
 */
module Exports {
  import opened PosixPaths
  import opened Sequences
  import opened Wrappers

  datatype Located = Outside | Irregular | Archive(bytes: nat, sha256: string)

  type Disk = map<string, Located>

  datatype Row = Row(uuid: string, id: int, managedPath: string, validationState: string, byteSize: int,
                     sha256: string, originalFilename: string, isBroken: int)

  datatype Item = Item(storyId: int, resolvedStoryId: int, outputName: string, archivePath: string,
                       archiveSha256: string, status: string, outcomeCode: string, skipCode: Option<string>,
                       totalBytes: int, completedBytes: int)

  datatype FileFacts = FileFacts(sha256: string, bytes: int)

  datatype Group = Group(id: int, name: string)

  datatype Frozen = Frozen(sourceType: string, groups: seq<Group>, destination: string, status: string,
                           errorCode: Option<string>, items: map<string, Item>, files: map<string, FileFacts>,
                           totalBytes: int)

  datatype ExportError =
    | NotOnce
    | NotOwned
    | NotRegular
    | ChangedBytes
    | NameClash
    | NothingEligible
    | WrongOperation
    | WrongGroups
    | WrongItem
    | WrongItems
    | WrongFiles

  predicate Skipped(row: Row) { row.isBroken == 1 }

  function Selected(rows: seq<Row>, uuids: set<string>): seq<Row> {
    if rows == [] then [] else
    (if rows[0].uuid in uuids then [rows[0]] else []) + Selected(rows[1..], uuids)
  }

  function Uuids(rows: seq<Row>): set<string> { set i | 0 <= i < |rows| :: rows[i].uuid }

  /** `Path(name).name == name`. */
  predicate PlainName(name: string) {
    var parts := Parse(name).parts;
    if parts == [] then name == "" else parts[|parts| - 1] == name
  }

  function ItemOf(row: Row): Item {
    var bytes := if Skipped(row) then 0 else row.byteSize;
    Item(row.id, row.id, row.originalFilename, row.managedPath, row.sha256,
         if Skipped(row) then "skipped" else "succeeded",
         if Skipped(row) then "story_marked_broken" else "exported",
         if Skipped(row) then Some("story_marked_broken") else None,
         bytes, bytes)
  }

  /** A broken row is skipped and counts no bytes; any other is exported in full. Both keep the row's identity. */
  lemma ItemMeans(row: Row)
    ensures var item := ItemOf(row);
            && item.storyId == item.resolvedStoryId == row.id && item.outputName == row.originalFilename
            && item.archivePath == row.managedPath && item.archiveSha256 == row.sha256
            && (row.isBroken == 1 ==>
                  && item.status == "skipped" && item.outcomeCode == "story_marked_broken"
                  && item.skipCode == Some("story_marked_broken") && item.totalBytes == 0 == item.completedBytes)
            && (row.isBroken != 1 ==>
                  && item.status == "succeeded" && item.outcomeCode == "exported"
                  && item.skipCode == None && item.totalBytes == row.byteSize == item.completedBytes)
  {
  }

  /** A usable name, or one of the two that pathlib also returns unchanged. */
  lemma PlainNameMeans(name: string)
    ensures PlainName(name) <==> GoodName(name) || name == "" || name == ".."
  {
    ParsedParts(name);
    if NoSlash(name) {
      ParseByComponent(name, "");
    }
  }

  function ItemsOf(rows: seq<Row>): map<string, Item> {
    if rows == [] then map[] else
    var last := rows[|rows| - 1];
    ItemsOf(rows[..|rows| - 1])[last.uuid := ItemOf(last)]
  }

  function FilesOf(rows: seq<Row>): map<string, FileFacts> {
    if rows == [] then map[] else
    var last := rows[|rows| - 1];
    var files := FilesOf(rows[..|rows| - 1]);
    if Skipped(last) then files else files[last.originalFilename := FileFacts(last.sha256, last.byteSize)]
  }

  /** The stored facts of the row are those of a valid archive inside the root. */
  predicate Vouched(disk: Disk, row: Row) {
    && row.validationState == "valid"
    && row.managedPath in disk
    && disk[row.managedPath].Archive?
    && disk[row.managedPath].bytes == row.byteSize
    && disk[row.managedPath].sha256 == row.sha256
  }

  predicate Freezes(disk: Disk, before: seq<Row>, row: Row) {
    && Vouched(disk, row)
    && PlainName(row.originalFilename)
    && forall i :: 0 <= i < |before| && !Skipped(before[i]) ==> before[i].originalFilename != row.originalFilename
  }

  /** Every row is vouched for, and its name is free when its turn comes. */
  predicate AllFreeze(disk: Disk, rows: seq<Row>) {
    rows == [] || (AllFreeze(disk, rows[..|rows| - 1]) && Freezes(disk, rows[..|rows| - 1], rows[|rows| - 1]))
  }

  lemma {:induction false} AllFreezeFront(disk: Disk, rows: seq<Row>, n: nat)
    requires AllFreeze(disk, rows) && n <= |rows|
    ensures AllFreeze(disk, rows[..n])
  {
    if n == |rows| {
      assert rows[..n] == rows;
    } else {
      assert rows[..|rows| - 1][..n] == rows[..n];
      AllFreezeFront(disk, rows[..|rows| - 1], n);
    }
  }

  /** A row is vouched for, and the files entered so far leave its name free. */
  predicate Entered(disk: Disk, row: Row, files: map<string, FileFacts>) {
    Vouched(disk, row) && PlainName(row.originalFilename) && row.originalFilename !in files
  }

  lemma EnteredIffFreezes(disk: Disk, before: seq<Row>, row: Row)
    ensures Entered(disk, row, FilesOf(before)) <==> Freezes(disk, before, row)
  {
    FileNames(before, row.originalFilename);
  }

  /** One row more: what its check decides, and what it adds. */
  lemma FreezeStep(disk: Disk, rows: seq<Row>, i: nat)
    requires i < |rows|
    ensures AllFreeze(disk, rows[..i + 1]) <==> AllFreeze(disk, rows[..i]) && Entered(disk, rows[i], FilesOf(rows[..i]))
    ensures ItemsOf(rows[..i + 1]) == ItemsOf(rows[..i])[rows[i].uuid := ItemOf(rows[i])]
    ensures FilesOf(rows[..i + 1]) == if Skipped(rows[i]) then FilesOf(rows[..i])
      else FilesOf(rows[..i])[rows[i].originalFilename := FileFacts(rows[i].sha256, rows[i].byteSize)]
    ensures AllFreeze(disk, rows) ==> AllFreeze(disk, rows[..i + 1])
  {
    assert rows[..i + 1][..i] == rows[..i];
    EnteredIffFreezes(disk, rows[..i], rows[i]);
    if AllFreeze(disk, rows) {
      AllFreezeFront(disk, rows, i + 1);
    }
  }

  predicate Freezable(disk: Disk, rows: seq<Row>, uuids: set<string>) {
    var selected := Selected(rows, uuids);
    && uuids != {} && |selected| == |uuids| && |Uuids(selected)| == |selected|
    && AllFreeze(disk, selected)
    && exists i :: 0 <= i < |selected| && !Skipped(selected[i])
  }

  lemma {:induction false} FileNames(rows: seq<Row>, name: string)
    ensures name in FilesOf(rows) <==> exists i :: 0 <= i < |rows| && !Skipped(rows[i]) && rows[i].originalFilename == name
  {
    if rows != [] {
      var front := rows[..|rows| - 1];
      FileNames(front, name);
      if exists i :: 0 <= i < |front| && !Skipped(front[i]) && front[i].originalFilename == name {
        var i :| 0 <= i < |front| && !Skipped(front[i]) && front[i].originalFilename == name;
        assert rows[i] == front[i];
      }
    }
  }

  lemma {:induction false} ItemKeys(rows: seq<Row>)
    ensures ItemsOf(rows).Keys == Uuids(rows)
  {
    if rows != [] {
      var front := rows[..|rows| - 1];
      ItemKeys(front);
      assert rows == front + [rows[|rows| - 1]];
      UuidsAppend(front, rows[|rows| - 1]);
    }
  }

  lemma UuidsAppend(rows: seq<Row>, row: Row)
    ensures Uuids(rows + [row]) == Uuids(rows) + {row.uuid}
  {
    var all := rows + [row];
    forall u | u in Uuids(rows) + {row.uuid} ensures u in Uuids(all) {
      if u == row.uuid {
        assert all[|rows|] == row;
      } else {
        var i :| 0 <= i < |rows| && rows[i].uuid == u;
        assert all[i] == rows[i];
      }
    }
  }

  method Freeze(disk: Disk, rows: seq<Row>, uuids: set<string>, sourceType: string, groups: seq<Group>, destination: string)
    returns (r: Result<Frozen, ExportError>)
    ensures r.Success? <==> Freezable(disk, rows, uuids)
    ensures r.Success? ==> r.value == FrozenOf(Selected(rows, uuids), sourceType, groups, destination)
  {
    var selected := Selected(rows, uuids);
    if uuids == {} || |selected| != |uuids| || |Uuids(selected)| != |selected| {
      return Failure(NotOnce);
    }
    var frozen := FreezeRows(disk, selected);
    if frozen.Failure? {
      return Failure(frozen.error);
    }
    var (items, files) := frozen.value;
    EligibleExists(selected);
    if files == map[] {
      return Failure(NothingEligible);
    }
    var partial := |files| != |items|;
    var total := TotalBytes(files);
    return Success(Frozen(sourceType, groups, destination,
                          if partial then "partially_succeeded" else "succeeded",
                          if partial then Some("partial_export") else None, items, files, total));
  }

  ghost function FrozenOf(rows: seq<Row>, sourceType: string, groups: seq<Group>, destination: string): Frozen {
    var partial := |FilesOf(rows)| != |ItemsOf(rows)|;
    Frozen(sourceType, groups, destination,
           if partial then "partially_succeeded" else "succeeded",
           if partial then Some("partial_export") else None,
           ItemsOf(rows), FilesOf(rows), SumBy(FilesOf(rows), Bytes))
  }

  function Bytes(facts: FileFacts): int { facts.bytes }

  function Completed(item: Item): int { item.completedBytes }

  function Total(item: Item): int { item.totalBytes }

  method FreezeRows(disk: Disk, rows: seq<Row>) returns (r: Result<(map<string, Item>, map<string, FileFacts>), ExportError>)
    ensures r.Success? <==> AllFreeze(disk, rows)
    ensures r.Success? ==> r.value == (ItemsOf(rows), FilesOf(rows))
  {
    var items: map<string, Item>, files: map<string, FileFacts> := map[], map[];
    for i := 0 to |rows|
      invariant AllFreeze(disk, rows[..i])
      invariant items == ItemsOf(rows[..i]) && files == FilesOf(rows[..i])
    {
      var row := rows[i];
      FreezeStep(disk, rows, i);
      var checked := CheckRow(disk, row, files);
      if checked.Failure? {
        return Failure(checked.error);
      }
      items := items[row.uuid := ItemOf(row)];
      if !Skipped(row) {
        files := files[row.originalFilename := FileFacts(row.sha256, row.byteSize)];
      }
    }
    assert rows[..|rows|] == rows;
    return Success((items, files));
  }

  method CheckRow(disk: Disk, row: Row, files: map<string, FileFacts>) returns (r: Result<(), ExportError>)
    ensures r.Success? <==> Entered(disk, row, files)
  {
    if (row.managedPath in disk && disk[row.managedPath] == Outside) || row.validationState != "valid" {
      return Failure(NotOwned);
    }
    if row.managedPath !in disk || !disk[row.managedPath].Archive? {
      return Failure(NotRegular);
    }
    if disk[row.managedPath].bytes != row.byteSize || disk[row.managedPath].sha256 != row.sha256 {
      return Failure(ChangedBytes);
    }
    if !PlainName(row.originalFilename) || row.originalFilename in files {
      return Failure(NameClash);
    }
    return Success(());
  }

  lemma EligibleExists(rows: seq<Row>)
    ensures FilesOf(rows) == map[] <==> !exists i :: 0 <= i < |rows| && !Skipped(rows[i])
  {
    if exists i :: 0 <= i < |rows| && !Skipped(rows[i]) {
      var i :| 0 <= i < |rows| && !Skipped(rows[i]);
      FileNames(rows, rows[i].originalFilename);
    }
    if FilesOf(rows) != map[] {
      var name :| name in FilesOf(rows);
      FileNames(rows, name);
    }
  }

  /** `sum(value['bytes'] for value in files.values())`. */
  method TotalBytes(files: map<string, FileFacts>) returns (total: int)
    ensures total == SumBy(files, Bytes)
  {
    var rest := files;
    total := 0;
    while rest != map[]
      invariant total + SumBy(rest, Bytes) == SumBy(files, Bytes)
      decreases |rest|
    {
      var name :| name in rest;
      SumByRemove(rest, Bytes, name);
      total := total + rest[name].bytes;
      rest := rest - {name};
    }
  }

  // ---------------------------------------------------------------- conservation

  lemma {:induction false} UuidCount(rows: seq<Row>)
    ensures |Uuids(rows)| <= |rows|
  {
    if rows != [] {
      UuidCount(rows[..|rows| - 1]);
      assert rows == rows[..|rows| - 1] + [rows[|rows| - 1]];
      UuidsAppend(rows[..|rows| - 1], rows[|rows| - 1]);
    }
  }

  predicate AllDistinct(rows: seq<Row>) { |Uuids(rows)| == |rows| }

  lemma DistinctFront(rows: seq<Row>)
    requires rows != [] && AllDistinct(rows)
    ensures AllDistinct(rows[..|rows| - 1]) && rows[|rows| - 1].uuid !in Uuids(rows[..|rows| - 1])
  {
    var front, last := rows[..|rows| - 1], rows[|rows| - 1];
    assert rows == front + [last];
    UuidsAppend(front, last);
    UuidCount(front);
    assert last.uuid in Uuids(front) ==> Uuids(front) + {last.uuid} == Uuids(front);
  }

  function CountSkipped(rows: seq<Row>): nat {
    if rows == [] then 0 else CountSkipped(rows[..|rows| - 1]) + if Skipped(rows[|rows| - 1]) then 1 else 0
  }

  lemma {:induction false} SomeSkipped(rows: seq<Row>)
    ensures CountSkipped(rows) > 0 <==> exists i :: 0 <= i < |rows| && Skipped(rows[i])
  {
    if rows != [] {
      var front := rows[..|rows| - 1];
      SomeSkipped(front);
      if exists i :: 0 <= i < |front| && Skipped(front[i]) {
        var i :| 0 <= i < |front| && Skipped(front[i]);
        assert Skipped(rows[i]);
      }
    }
  }

  /** Frozen bytes are neither lost nor invented, and files are the items not skipped. */
  lemma {:induction false} RowsConserve(disk: Disk, rows: seq<Row>)
    requires AllFreeze(disk, rows) && AllDistinct(rows)
    ensures SumBy(ItemsOf(rows), Completed) == SumBy(FilesOf(rows), Bytes)
    ensures SumBy(ItemsOf(rows), Total) == SumBy(FilesOf(rows), Bytes)
    ensures |ItemsOf(rows)| == |rows| && |FilesOf(rows)| + CountSkipped(rows) == |rows|
  {
    if rows != [] {
      var front, last := rows[..|rows| - 1], rows[|rows| - 1];
      DistinctFront(rows);
      RowsConserve(disk, front);
      ItemKeys(front);
      FileNames(front, last.originalFilename);
      SumByAdd(ItemsOf(front), Completed, last.uuid, ItemOf(last));
      SumByAdd(ItemsOf(front), Total, last.uuid, ItemOf(last));
      if !Skipped(last) {
        SumByAdd(FilesOf(front), Bytes, last.originalFilename, FileFacts(last.sha256, last.byteSize));
      }
    }
  }

  lemma {:induction false} SelectedWithin(rows: seq<Row>, uuids: set<string>)
    ensures Uuids(Selected(rows, uuids)) <= uuids
    ensures forall row :: row in Selected(rows, uuids) <==> row in rows && row.uuid in uuids
  {
    if rows != [] {
      SelectedWithin(rows[1..], uuids);
    }
  }

  lemma {:induction false} SubsetOfSize<T>(a: set<T>, b: set<T>)
    requires a <= b && |a| == |b|
    ensures a == b
  {
    if a != {} {
      var x :| x in a;
      SubsetOfSize(a - {x}, b - {x});
    }
  }

  lemma {:induction false} ItemsAt(rows: seq<Row>, i: nat)
    requires AllDistinct(rows) && i < |rows|
    ensures rows[i].uuid in ItemsOf(rows) && ItemsOf(rows)[rows[i].uuid] == ItemOf(rows[i])
  {
    DistinctFront(rows);
    if i < |rows| - 1 {
      ItemsAt(rows[..|rows| - 1], i);
      assert rows[..|rows| - 1][i].uuid in Uuids(rows[..|rows| - 1]);
    }
  }

  lemma SelectedOnce(disk: Disk, rows: seq<Row>, uuids: set<string>)
    requires Freezable(disk, rows, uuids)
    ensures Uuids(Selected(rows, uuids)) == uuids && AllDistinct(Selected(rows, uuids))
  {
    SelectedWithin(rows, uuids);
    SubsetOfSize(Uuids(Selected(rows, uuids)), uuids);
  }

  /** A frozen scope covers every requested UUID exactly once, with its row's outcome. */
  lemma FrozenCovers(disk: Disk, rows: seq<Row>, uuids: set<string>)
    requires Freezable(disk, rows, uuids)
    ensures ItemsOf(Selected(rows, uuids)).Keys == uuids
    ensures forall row :: row in rows && row.uuid in uuids ==> ItemsOf(Selected(rows, uuids))[row.uuid] == ItemOf(row)
  {
    var selected := Selected(rows, uuids);
    SelectedOnce(disk, rows, uuids);
    SelectedWithin(rows, uuids);
    ItemKeys(selected);
    forall row | row in rows && row.uuid in uuids ensures ItemsOf(selected)[row.uuid] == ItemOf(row) {
      var i :| 0 <= i < |selected| && selected[i] == row;
      ItemsAt(selected, i);
    }
  }

  lemma {:induction false} FilesAt(disk: Disk, rows: seq<Row>, i: nat)
    requires AllFreeze(disk, rows) && i < |rows| && !Skipped(rows[i])
    ensures rows[i].originalFilename in FilesOf(rows)
    ensures FilesOf(rows)[rows[i].originalFilename] == FileFacts(rows[i].sha256, rows[i].byteSize)
    ensures Vouched(disk, rows[i])
  {
    if i < |rows| - 1 {
      var front := rows[..|rows| - 1];
      FilesAt(disk, front, i);
      assert front[i].originalFilename == rows[i].originalFilename;
    }
  }

  /** The frozen files are the requested rows that are not skipped, with the bytes and digest found on disk. */
  lemma FrozenFilesAreOnDisk(disk: Disk, rows: seq<Row>, uuids: set<string>)
    requires Freezable(disk, rows, uuids)
    ensures var files := FilesOf(Selected(rows, uuids));
            && (forall row :: row in rows && row.uuid in uuids && !Skipped(row) ==>
                  && row.originalFilename in files && row.managedPath in disk
                  && disk[row.managedPath].Archive?
                  && disk[row.managedPath].bytes == files[row.originalFilename].bytes
                  && disk[row.managedPath].sha256 == files[row.originalFilename].sha256)
            && forall name :: name in files ==>
                 exists row :: row in rows && row.uuid in uuids && !Skipped(row) && row.originalFilename == name
  {
    var selected := Selected(rows, uuids);
    SelectedWithin(rows, uuids);
    forall row | row in rows && row.uuid in uuids && !Skipped(row)
      ensures row.originalFilename in FilesOf(selected) && Vouched(disk, row)
      ensures FilesOf(selected)[row.originalFilename] == FileFacts(row.sha256, row.byteSize)
    {
      var i :| 0 <= i < |selected| && selected[i] == row;
      FilesAt(disk, selected, i);
    }
    forall name | name in FilesOf(selected)
      ensures exists row :: row in rows && row.uuid in uuids && !Skipped(row) && row.originalFilename == name
    {
      FileNames(selected, name);
      var i :| 0 <= i < |selected| && !Skipped(selected[i]) && selected[i].originalFilename == name;
      assert selected[i] in selected;
    }
  }

  /** Items, files and the total count the same bytes, and the outcome is partial exactly when an item is skipped. */
  lemma FrozenConserves(disk: Disk, rows: seq<Row>, uuids: set<string>, f: Frozen)
    requires Freezable(disk, rows, uuids)
    requires f == FrozenOf(Selected(rows, uuids), f.sourceType, f.groups, f.destination)
    ensures SumBy(f.items, Completed) == SumBy(f.items, Total) == SumBy(f.files, Bytes) == f.totalBytes
    ensures f.status == "partially_succeeded" <==> exists row :: row in rows && row.uuid in uuids && Skipped(row)
    ensures f.errorCode == Some("partial_export") <==> f.status == "partially_succeeded"
  {
    var selected := Selected(rows, uuids);
    SelectedOnce(disk, rows, uuids);
    RowsConserve(disk, selected);
    SomeSkipped(selected);
    PartialMeansSkipped(rows, uuids);
  }

  lemma PartialMeansSkipped(rows: seq<Row>, uuids: set<string>)
    ensures CountSkipped(Selected(rows, uuids)) > 0 <==> exists row :: row in rows && row.uuid in uuids && Skipped(row)
  {
    var selected := Selected(rows, uuids);
    SomeSkipped(selected);
    SelectedWithin(rows, uuids);
    if exists row :: row in rows && row.uuid in uuids && Skipped(row) {
      var row :| row in rows && row.uuid in uuids && Skipped(row);
      assert row in selected;
    }
  }

  // ---------------------------------------------------------------- the check

  datatype Operation = Operation(id: string, kind: string, status: string, errorCode: Option<string>, sourceType: string,
                                 destination: string, completedItems: int, totalItems: int, totalBytes: int,
                                 cancelRequested: int, finished: bool,
                                 shelfIds: Option<seq<int>>, shelfNames: Option<seq<string>>)

  datatype Observed = Observed(operationId: string, storyUuid: string, item: Item)

  predicate HeaderMatches(expected: Frozen, op: Operation) {
    && op.finished && op.kind == "export" && op.cancelRequested == 0
    && op.status == expected.status && op.errorCode == expected.errorCode
    && op.sourceType == expected.sourceType && op.destination == expected.destination
    && op.completedItems == op.totalItems == |expected.items| && op.totalBytes == expected.totalBytes
  }

  function GroupIds(groups: seq<Group>): seq<int> { seq(|groups|, i requires 0 <= i < |groups| => groups[i].id) }

  function GroupNames(groups: seq<Group>): seq<string> { seq(|groups|, i requires 0 <= i < |groups| => groups[i].name) }

  predicate GroupsMatch(expected: Frozen, op: Operation) {
    op.shelfIds == Some(GroupIds(expected.groups)) && op.shelfNames == Some(GroupNames(expected.groups))
  }

  predicate IsFrozenItem(frozen: map<string, Item>, id: string, o: Observed) {
    o.operationId == id && o.storyUuid in frozen && o.item == frozen[o.storyUuid]
  }

  /** One observed item for each frozen one, in whatever order. */
  ghost predicate Bijects(items: seq<Observed>, frozen: map<string, Item>, id: string) {
    && (forall i :: 0 <= i < |items| ==> IsFrozenItem(frozen, id, items[i]))
    && (forall i, j :: 0 <= i < j < |items| ==> items[i].storyUuid != items[j].storyUuid)
    && forall u :: u in frozen ==> exists i :: 0 <= i < |items| && items[i].storyUuid == u
  }

  ghost predicate Accepted(expected: Frozen, op: Operation, items: seq<Observed>, files: map<string, FileFacts>) {
    HeaderMatches(expected, op) && GroupsMatch(expected, op) && Bijects(items, expected.items, op.id) && files == expected.files
  }

  method Verify(expected: Frozen, op: Operation, items: seq<Observed>, files: map<string, FileFacts>)
    returns (r: Result<(), ExportError>)
    ensures r.Success? <==> Accepted(expected, op, items, files)
  {
    if !HeaderMatches(expected, op) {
      return Failure(WrongOperation);
    }
    if !GroupsMatch(expected, op) {
      return Failure(WrongGroups);
    }
    var checked := VerifyItems(expected.items, op.id, items);
    if checked.Failure? {
      return checked;
    }
    if files != expected.files {
      return Failure(WrongFiles);
    }
    return Success(());
  }

  /** A shelf's identities or names, one for each group and in their order. */
  predicate Follows<T(==), G>(listed: Option<seq<T>>, groups: seq<G>, f: G -> T) {
    listed.Some? && |listed.value| == |groups| && forall i :: 0 <= i < |groups| ==> listed.value[i] == f(groups[i])
  }

  /** What an accepted operation is like, field by field. */
  lemma AcceptedMeans(expected: Frozen, op: Operation, items: seq<Observed>, files: map<string, FileFacts>)
    ensures Accepted(expected, op, items, files) <==>
            && op.kind == "export" && op.finished && op.cancelRequested == 0
            && op.status == expected.status && op.errorCode == expected.errorCode
            && op.sourceType == expected.sourceType && op.destination == expected.destination
            && op.totalItems == |expected.items| && op.completedItems == |expected.items|
            && op.totalBytes == expected.totalBytes
            && Follows(op.shelfIds, expected.groups, (g: Group) => g.id)
            && Follows(op.shelfNames, expected.groups, (g: Group) => g.name)
            && Bijects(items, expected.items, op.id) && files == expected.files
  {
    assert Follows(op.shelfIds, expected.groups, (g: Group) => g.id) ==> op.shelfIds.value == GroupIds(expected.groups);
    assert Follows(op.shelfNames, expected.groups, (g: Group) => g.name) ==> op.shelfNames.value == GroupNames(expected.groups);
  }

  function ObservedOf(items: seq<Observed>): map<string, Item> {
    if items == [] then map[] else
    ObservedOf(items[..|items| - 1])[items[|items| - 1].storyUuid := items[|items| - 1].item]
  }

  predicate Named(items: seq<Observed>, u: string) { exists i :: 0 <= i < |items| && items[i].storyUuid == u }

  predicate NoneTwice(items: seq<Observed>) { forall i, j :: 0 <= i < j < |items| ==> items[i].storyUuid != items[j].storyUuid }

  lemma {:induction false} ObservedKeys(items: seq<Observed>)
    ensures forall u :: u in ObservedOf(items) <==> Named(items, u)
  {
    if items != [] {
      var front, last := items[..|items| - 1], items[|items| - 1];
      ObservedKeys(front);
      forall u ensures u in ObservedOf(items) <==> Named(items, u) {
        if Named(front, u) {
          var i :| 0 <= i < |front| && front[i].storyUuid == u;
          assert items[i].storyUuid == u;
        }
        assert items == front + [last];
        assert items[|front|] == last;
      }
    }
  }

  lemma {:induction false} ObservedAt(items: seq<Observed>, i: nat)
    requires NoneTwice(items) && i < |items|
    ensures items[i].storyUuid in ObservedOf(items) && ObservedOf(items)[items[i].storyUuid] == items[i].item
  {
    if i < |items| - 1 {
      ObservedAt(items[..|items| - 1], i);
    }
  }

  method VerifyItems(frozen: map<string, Item>, id: string, items: seq<Observed>) returns (r: Result<(), ExportError>)
    ensures r.Success? <==> Bijects(items, frozen, id)
  {
    var observed: map<string, Item> := map[];
    for i := 0 to |items|
      invariant observed == ObservedOf(items[..i]) && NoneTwice(items[..i])
      invariant forall j :: 0 <= j < i ==> items[j].operationId == id && items[j].storyUuid in frozen
    {
      var item := items[i];
      ObservedKeys(items[..i]);
      assert items[..i + 1][..i] == items[..i];
      if item.operationId != id || item.storyUuid in observed || item.storyUuid !in frozen {
        return Failure(WrongItem);
      }
      Fresh(items[..i], item);
      assert items[..i + 1] == items[..i] + [item];
      observed := observed[item.storyUuid := item.item];
    }
    assert items[..|items|] == items;
    ObservedIsFrozen(items, frozen, id);
    if observed != frozen {
      return Failure(WrongItems);
    }
    return Success(());
  }

  lemma Fresh(items: seq<Observed>, item: Observed)
    requires NoneTwice(items) && !Named(items, item.storyUuid)
    ensures NoneTwice(items + [item])
  {
  }

  lemma ObservedIsFrozen(items: seq<Observed>, frozen: map<string, Item>, id: string)
    requires NoneTwice(items)
    requires forall j :: 0 <= j < |items| ==> items[j].operationId == id && items[j].storyUuid in frozen
    ensures ObservedOf(items) == frozen <==> Bijects(items, frozen, id)
  {
    ObservedKeys(items);
    forall i | 0 <= i < |items| ensures ObservedOf(items)[items[i].storyUuid] == items[i].item {
      ObservedAt(items, i);
    }
    if Bijects(items, frozen, id) {
      forall u | u in frozen ensures u in ObservedOf(items) && ObservedOf(items)[u] == frozen[u] {
        var i :| 0 <= i < |items| && items[i].storyUuid == u;
        assert IsFrozenItem(frozen, id, items[i]);
      }
    }
  }

  // ---------------------------------------------------------------- any order, same bytes

  function ItemBytes(items: seq<Observed>): int {
    if items == [] then 0 else ItemBytes(items[..|items| - 1]) + items[|items| - 1].item.completedBytes
  }

  lemma {:induction false} ItemBytesSum(items: seq<Observed>)
    requires NoneTwice(items)
    ensures ItemBytes(items) == SumBy(ObservedOf(items), Completed) && |ObservedOf(items)| == |items|
  {
    if items != [] {
      var front := items[..|items| - 1];
      ItemBytesSum(front);
      ObservedKeys(front);
      SumByAdd(ObservedOf(front), Completed, items[|items| - 1].storyUuid, items[|items| - 1].item);
    }
  }

  /** The bytes of an accepted operation's items are the bytes of the exported files. */
  lemma AcceptedConserves(disk: Disk, rows: seq<Row>, uuids: set<string>, f: Frozen, op: Operation,
                          items: seq<Observed>, files: map<string, FileFacts>)
    requires Freezable(disk, rows, uuids)
    requires f == FrozenOf(Selected(rows, uuids), f.sourceType, f.groups, f.destination)
    requires Accepted(f, op, items, files)
    ensures ItemBytes(items) == SumBy(files, Bytes) == op.totalBytes
    ensures |items| == |uuids| == op.completedItems
  {
    FrozenConserves(disk, rows, uuids, f);
    FrozenCovers(disk, rows, uuids);
    ObservedIsFrozen(items, f.items, op.id);
    ItemBytesSum(items);
  }

  predicate Distinct<T(==)>(s: seq<T>) { forall i, j :: 0 <= i < j < |s| ==> s[i] != s[j] }

  lemma {:induction false} DistinctCounts<T>(s: seq<T>)
    ensures Distinct(s) <==> forall x | x in s :: multiset(s)[x] == 1
  {
    if s != [] {
      var front, last := s[..|s| - 1], s[|s| - 1];
      DistinctCounts(front);
      assert s == front + [last];
      assert multiset(s)[last] == multiset(front)[last] + 1;
      if Distinct(s) {
        assert Distinct(front);
        assert last !in front;
      } else if last in front {
        assert multiset(s)[last] > 1;
      } else {
        var x :| x in front && multiset(front)[x] != 1;
        assert multiset(s)[x] != 1 && x in s;
      }
    }
  }

  lemma BijectsCounts(items: seq<Observed>, frozen: map<string, Item>, id: string)
    ensures Bijects(items, frozen, id) <==>
      && (forall o :: o in items ==> IsFrozenItem(frozen, id, o))
      && (forall o :: o in items ==> multiset(items)[o] == 1)
      && forall u :: u in frozen ==> Observed(id, u, frozen[u]) in items
  {
    DistinctCounts(items);
    if forall o :: o in items ==> IsFrozenItem(frozen, id, o) {
      forall i, j | 0 <= i < j < |items| ensures items[i] == items[j] <==> items[i].storyUuid == items[j].storyUuid {
        assert IsFrozenItem(frozen, id, items[i]) && IsFrozenItem(frozen, id, items[j]);
      }
      forall u | u in frozen ensures Named(items, u) <==> Observed(id, u, frozen[u]) in items {
        if Named(items, u) {
          var i :| 0 <= i < |items| && items[i].storyUuid == u;
          assert IsFrozenItem(frozen, id, items[i]);
        }
      }
    }
  }

  /** The order of an operation's items does not matter. */
  lemma AnyOrder(a: seq<Observed>, b: seq<Observed>, frozen: map<string, Item>, id: string)
    requires multiset(a) == multiset(b)
    ensures Bijects(a, frozen, id) <==> Bijects(b, frozen, id)
  {
    BijectsCounts(a, frozen, id);
    BijectsCounts(b, frozen, id);
    assert forall o :: o in a <==> o in multiset(a);
    assert forall o :: o in b <==> o in multiset(b);
  }
}
