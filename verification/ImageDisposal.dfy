/**
 * Detaching the one disk image the test owns (scripts/verify-native-relocation.py,
 * lines 64-167), against a disk tool that may answer anything at any time.
 */
module ImageDisposal {
  import opened Wrappers
  import opened Strings
  import opened Sequences

  const BUSY := 16
  const LAST_ATTEMPT := 3

  /** `dev-entry`, when it is a string. */
  datatype Device = NoName | Name(text: string)

  /** An entry of `system-entities`: not a dictionary, or its content hint and device. */
  datatype Entity = Foreign | Entity(partitionScheme: bool, device: Device)

  /** A row of the inventory; `entities` is None when it is not a list. */
  datatype Row = Malformed | Row(path: string, entities: Option<seq<Entity>>)

  datatype Listing = Unreadable | Rows(rows: seq<Row>)

  datatype Exit = NoExit | Exit(code: int)

  datatype Observation =
    | OwnedImage(row: Option<Row>)
    | Command(forced: bool, device: string, code: int)
    | OpenFiles

  datatype Event =
    | Listed(listing: Listing)
    | Mountpoint(released: bool)
    | Detached(forced: bool, device: string, exit: Exit)
    | Slept(seconds: nat)
    | Diagnosed
    | Receipt(written: bool, observations: seq<Observation>)

  datatype DisposalError =
    | NoInventory
    | MalformedRow
    | Ambiguous
    | MountpointUncertain
    | NoDeviceInventory
    | NoUniqueDevice
    | ToolFailed
    | StillAttached
    | Incomplete
    | ReceiptLost

  // ---------------------------------------------------------------- reading an inventory

  function Matches(rows: seq<Row>, image: string): seq<Row> {
    if rows == [] then [] else
    Matches(rows[..|rows| - 1], image) +
    if rows[|rows| - 1].Row? && rows[|rows| - 1].path == image then [rows[|rows| - 1]] else []
  }

  predicate WellFormed(rows: seq<Row>) { forall i :: 0 <= i < |rows| ==> rows[i].Row? }

  /** The inventory could be read and names the image at most once. */
  predicate Conclusive(l: Listing, image: string) {
    l.Rows? && WellFormed(l.rows) && |Matches(l.rows, image)| <= 1
  }

  predicate Absent(l: Listing, image: string) { Conclusive(l, image) && Matches(l.rows, image) == [] }

  predicate Attached(l: Listing, image: string) { Conclusive(l, image) && |Matches(l.rows, image)| == 1 }

  function OwnedRow(l: Listing, image: string): Option<Row>
    requires Conclusive(l, image)
  {
    if Absent(l, image) then None else Some(Matches(l.rows, image)[0])
  }

  function Disks(entities: seq<Entity>): seq<Device> {
    if entities == [] then [] else
    Disks(entities[..|entities| - 1]) +
    if entities[|entities| - 1].Entity? && entities[|entities| - 1].partitionScheme then [entities[|entities| - 1].device] else []
  }

  const DISK := "/dev/disk"

  /** `/dev/disk[0-9]+`, all of it. */
  predicate IsWholeDisk(s: string) {
    DISK <= s && |s| > |DISK| && AllDigits(s[|DISK|..])
  }

  predicate BacksOnly(row: Row, device: string) {
    row.Row? && row.entities.Some? && Disks(row.entities.value) == [Name(device)] && IsWholeDisk(device)
  }

  /** The inventory names the image once, backed by this one whole disk. */
  predicate Backs(l: Listing, image: string, device: string) {
    Attached(l, image) && BacksOnly(Matches(l.rows, image)[0], device)
  }

  // ---------------------------------------------------------------- what an inventory says

  /** Row i names the image, and no other row does. */
  predicate SoleRow(rows: seq<Row>, image: string, i: int)
    requires WellFormed(rows)
  {
    0 <= i < |rows| && rows[i].path == image && forall j :: 0 <= j < |rows| && j != i ==> rows[j].path != image
  }

  lemma {:induction false} NoneMatch(rows: seq<Row>, image: string)
    requires WellFormed(rows)
    ensures Matches(rows, image) == [] <==> forall i :: 0 <= i < |rows| ==> rows[i].path != image
  {
    if rows != [] {
      NoneMatch(rows[..|rows| - 1], image);
    }
  }

  lemma {:induction false} SoleMatches(rows: seq<Row>, image: string, i: int)
    requires WellFormed(rows) && SoleRow(rows, image, i)
    ensures Matches(rows, image) == [rows[i]]
  {
    var front := rows[..|rows| - 1];
    if i == |rows| - 1 {
      NoneMatch(front, image);
    } else {
      SoleMatches(front, image, i);
    }
  }

  lemma {:induction false} FindSole(rows: seq<Row>, image: string) returns (i: int)
    requires WellFormed(rows) && |Matches(rows, image)| == 1
    ensures SoleRow(rows, image, i)
  {
    var front := rows[..|rows| - 1];
    if rows[|rows| - 1].path == image {
      NoneMatch(front, image);
      i := |rows| - 1;
    } else {
      i := FindSole(front, image);
    }
  }

  lemma OneMatches(rows: seq<Row>, image: string)
    requires WellFormed(rows)
    ensures |Matches(rows, image)| == 1 <==> exists i :: SoleRow(rows, image, i)
    ensures forall i :: SoleRow(rows, image, i) ==> Matches(rows, image) == [rows[i]]
  {
    if |Matches(rows, image)| == 1 {
      var i := FindSole(rows, image);
    }
    forall i | SoleRow(rows, image, i) ensures Matches(rows, image) == [rows[i]] {
      SoleMatches(rows, image, i);
    }
  }

  /** Of a well-formed listing: the image is absent when no row names it, and attached when exactly one does. */
  lemma ListingMeans(rows: seq<Row>, image: string)
    requires WellFormed(rows)
    ensures Absent(Rows(rows), image) <==> forall i :: 0 <= i < |rows| ==> rows[i].path != image
    ensures Attached(Rows(rows), image) <==> exists i :: SoleRow(rows, image, i)
    ensures Conclusive(Rows(rows), image) <==> Absent(Rows(rows), image) || Attached(Rows(rows), image)
    ensures Absent(Rows(rows), image) ==> OwnedRow(Rows(rows), image) == None
    ensures forall i :: SoleRow(rows, image, i) ==> OwnedRow(Rows(rows), image) == Some(rows[i])
  {
    NoneMatch(rows, image);
    OneMatches(rows, image);
  }

  /** Entity k is the row's only partition scheme. */
  predicate SoleScheme(entities: seq<Entity>, k: int) {
    && 0 <= k < |entities| && entities[k].Entity? && entities[k].partitionScheme
    && forall j :: 0 <= j < |entities| && j != k && entities[j].Entity? ==> !entities[j].partitionScheme
  }

  lemma {:induction false} NoScheme(entities: seq<Entity>)
    ensures Disks(entities) == [] <==>
            forall j :: 0 <= j < |entities| && entities[j].Entity? ==> !entities[j].partitionScheme
  {
    if entities != [] {
      NoScheme(entities[..|entities| - 1]);
    }
  }

  lemma {:induction false} SoleDisk(entities: seq<Entity>, k: int)
    requires SoleScheme(entities, k)
    ensures Disks(entities) == [entities[k].device]
  {
    var front := entities[..|entities| - 1];
    if k == |entities| - 1 {
      NoScheme(front);
    } else {
      SoleDisk(front, k);
    }
  }

  lemma {:induction false} FindScheme(entities: seq<Entity>) returns (k: int)
    requires |Disks(entities)| == 1
    ensures SoleScheme(entities, k)
  {
    var front, last := entities[..|entities| - 1], entities[|entities| - 1];
    if last.Entity? && last.partitionScheme {
      NoScheme(front);
      k := |entities| - 1;
    } else {
      k := FindScheme(front);
    }
  }

  lemma OneScheme(entities: seq<Entity>)
    ensures |Disks(entities)| == 1 <==> exists k :: SoleScheme(entities, k)
    ensures forall k :: SoleScheme(entities, k) ==> Disks(entities) == [entities[k].device]
  {
    if |Disks(entities)| == 1 {
      var k := FindScheme(entities);
    }
    forall k | SoleScheme(entities, k) ensures Disks(entities) == [entities[k].device] {
      SoleDisk(entities, k);
    }
  }

  /** The device of the only partition scheme, when it is a whole disk. */
  lemma BacksOnlyMeans(row: Row, device: string)
    ensures BacksOnly(row, device) <==>
            && row.Row? && row.entities.Some?
            && (exists k :: SoleScheme(row.entities.value, k) && row.entities.value[k].device == Name(device))
            && exists digits :: digits != "" && AllDigits(digits) && device == "/dev/disk" + digits
  {
    if row.Row? && row.entities.Some? {
      OneScheme(row.entities.value);
    }
    WholeDiskMeans(device);
  }

  lemma WholeDiskMeans(s: string)
    ensures IsWholeDisk(s) <==> exists digits :: digits != "" && AllDigits(digits) && s == "/dev/disk" + digits
  {
    if IsWholeDisk(s) {
      var digits := s[|DISK|..];
      assert digits != "" && AllDigits(digits) && s == "/dev/disk" + digits;
    }
    forall digits | digits != "" && AllDigits(digits) && s == "/dev/disk" + digits ensures IsWholeDisk(s) {
      assert s[|DISK|..] == digits;
    }
  }

  ghost predicate SoleRowGives(rows: seq<Row>, image: string, device: string)
    requires WellFormed(rows)
  {
    exists i :: SoleRow(rows, image, i) && BacksOnly(rows[i], device)
  }

  /** A device backs the image when the image's only row has it as its only whole disk. */
  lemma BacksMeans(rows: seq<Row>, image: string, device: string)
    requires WellFormed(rows)
    ensures Backs(Rows(rows), image, device) <==> SoleRowGives(rows, image, device)
  {
    OneMatches(rows, image);
  }

  // ---------------------------------------------------------------- what a run may do

  function Detaches(log: seq<Event>): nat {
    if log == [] then 0 else Detaches(log[..|log| - 1]) + if log[|log| - 1].Detached? then 1 else 0
  }

  predicate HasForced(log: seq<Event>) { exists i :: 0 <= i < |log| && log[i].Detached? && log[i].forced }

  /** An unforced attempt that answered busy and whose image was then seen attached. */
  predicate BusyAt(log: seq<Event>, image: string, i: nat)
    requires i < |log|
  {
    && log[i].Detached? && !log[i].forced && log[i].exit == Exit(BUSY)
    && i + 1 < |log| && log[i + 1].Listed? && Attached(log[i + 1].listing, image)
  }

  predicate AllBusy(log: seq<Event>, image: string) {
    forall i :: 0 <= i < |log| && log[i].Detached? ==> BusyAt(log, image, i)
  }

  /** A detach names the disk just listed, every earlier one was busy, the run rested since, and only the fourth forces. */
  predicate Legal(before: seq<Event>, image: string, e: Event)
    requires e.Detached?
  {
    && before != [] && before[|before| - 1].Listed? && Backs(before[|before| - 1].listing, image, e.device)
    && AllBusy(before, image)
    && Detaches(before) <= LAST_ATTEMPT
    && (e.forced <==> Detaches(before) == LAST_ATTEMPT)
    && Rested(before[..|before| - 1])
  }

  /** After the n-th detach the run slept n seconds. */
  predicate Rested(log: seq<Event>) {
    Detaches(log) > 0 ==> log != [] && log[|log| - 1] == Slept(Detaches(log))
  }

  predicate Safe(log: seq<Event>, image: string) {
    log == [] ||
    (Safe(log[..|log| - 1], image) && (log[|log| - 1].Detached? ==> Legal(log[..|log| - 1], image, log[|log| - 1])))
  }

  function Record(e: Event, image: string): seq<Observation> {
    match e
    case Listed(l) => if Conclusive(l, image) then [OwnedImage(OwnedRow(l, image))] else []
    case Detached(forced, device, exit) => if exit.Exit? then [Command(forced, device, exit.code)] else []
    case Diagnosed => [OpenFiles]
    case _ => []
  }

  function Recorded(log: seq<Event>, image: string): seq<Observation> {
    if log == [] then [] else Recorded(log[..|log| - 1], image) + Record(log[|log| - 1], image)
  }

  /** The image was just seen absent, and its mountpoint released. */
  predicate EndsReleased(log: seq<Event>, image: string) {
    && |log| >= 2 && log[|log| - 1] == Mountpoint(true)
    && log[|log| - 2].Listed? && Absent(log[|log| - 2].listing, image)
  }

  /** The run ended by seeing the image absent and its mountpoint released, and said so in the receipt. */
  predicate EndsDisposed(log: seq<Event>, image: string) {
    && log != [] && EndsReleased(log[..|log| - 1], image)
    && log[|log| - 1] == Receipt(true, Recorded(log[..|log| - 1], image))
  }

  /** The last events of a run that give each reason to stop. */
  ghost predicate Justifies(log: seq<Event>, image: string, error: DisposalError) {
    match error
    case NoInventory => EndsListed(log) && LastListing(log).Unreadable?
    case MalformedRow => EndsListed(log) && LastListing(log).Rows? && !WellFormed(LastListing(log).rows)
    case Ambiguous =>
      EndsListed(log) && LastListing(log).Rows? && WellFormed(LastListing(log).rows) && |Matches(LastListing(log).rows, image)| > 1
    case MountpointUncertain =>
      && |log| >= 2 && log[|log| - 1] == Mountpoint(false)
      && log[|log| - 2].Listed? && Absent(log[|log| - 2].listing, image)
    case NoDeviceInventory =>
      EndsListed(log) && Attached(LastListing(log), image) && Matches(LastListing(log).rows, image)[0] == Row(image, None)
    case NoUniqueDevice =>
      EndsListed(log) && Attached(LastListing(log), image) && NoDisk(Matches(LastListing(log).rows, image)[0])
    case ToolFailed => log != [] && log[|log| - 1].Detached? && log[|log| - 1].exit == NoExit
    case StillAttached => EndsRefused(log, image) || EndsDiagnosed(log, image)
    case Incomplete => Detaches(log) == LAST_ATTEMPT + 1 && !HasForced(log)
    case ReceiptLost => false
  }

  predicate EndsListed(log: seq<Event>) { log != [] && log[|log| - 1].Listed? }

  function LastListing(log: seq<Event>): Listing
    requires EndsListed(log)
  {
    log[|log| - 1].listing
  }

  /** There is a list of entities, and it does not give one whole disk. */
  ghost predicate NoDisk(row: Row) {
    row.Row? && row.entities.Some? && forall device :: !BacksOnly(row, device)
  }

  /** A detach exited, not as busy, and the image was then still attached. */
  predicate EndsRefused(log: seq<Event>, image: string) {
    && |log| >= 2 && log[|log| - 1].Listed? && Attached(log[|log| - 1].listing, image)
    && log[|log| - 2].Detached? && log[|log| - 2].exit.Exit? && log[|log| - 2].exit != Exit(BUSY)
  }

  /** The forced detach was busy too, and the open files were looked at. */
  predicate EndsDiagnosed(log: seq<Event>, image: string) {
    && |log| >= 3 && log[|log| - 1] == Diagnosed
    && log[|log| - 2].Listed? && Attached(log[|log| - 2].listing, image)
    && log[|log| - 3].Detached? && log[|log| - 3].forced && log[|log| - 3].exit == Exit(BUSY)
  }

  /** The loop never runs out: its fourth attempt is forced, and decides. */
  lemma NeverIncomplete(log: seq<Event>, image: string)
    requires Safe(log, image)
    ensures !Justifies(log, image, Incomplete)
  {
    if Detaches(log) == 4 {
      FourthIsForced(log, image);
    }
  }

  lemma {:induction false} FourthIsForced(log: seq<Event>, image: string)
    requires Safe(log, image) && Detaches(log) == 4
    ensures HasForced(log)
  {
    var front := log[..|log| - 1];
    if log[|log| - 1].Detached? {
      assert log[|log| - 1].forced;
    } else {
      FourthIsForced(front, image);
      var i :| 0 <= i < |front| && front[i].Detached? && front[i].forced;
      assert log[i].forced;
    }
  }

  /** Every detach of a safe run was legal when it was issued. */
  lemma {:induction false} SafeAt(log: seq<Event>, image: string, i: nat)
    requires Safe(log, image) && i < |log| && log[i].Detached?
    ensures Legal(log[..i], image, log[i])
  {
    if i < |log| - 1 {
      SafeAt(log[..|log| - 1], image, i);
      assert log[..|log| - 1][..i] == log[..i];
    }
  }

  lemma {:induction false} AtMostFour(log: seq<Event>, image: string)
    requires Safe(log, image)
    ensures Detaches(log) <= 4
  {
    if log != [] {
      AtMostFour(log[..|log| - 1], image);
    }
  }

  /** A safe run forces at most once, as its last detach, after exactly three busy ones. */
  lemma ForcedIsFourth(log: seq<Event>, image: string, i: nat, j: nat)
    requires Safe(log, image) && i < |log| && log[i].Detached? && log[i].forced
    requires j < |log| && log[j].Detached?
    ensures Detaches(log[..i]) == 3 && j <= i
    ensures j < i ==> BusyAt(log, image, j)
  {
    SafeAt(log, image, i);
    SafeAt(log, image, j);
    assert j < i ==> BusyAt(log[..i], image, j);
  }

  predicate NoRowNames(rows: seq<Row>, image: string) {
    forall i :: 0 <= i < |rows| ==> rows[i].Row? && rows[i].path != image
  }

  /** A normal return: the last inventory was read in full, no row named the image, and the mountpoint was released. */
  lemma DisposedMeans(log: seq<Event>, image: string)
    requires EndsDisposed(log, image)
    ensures |log| >= 3 && log[|log| - 3].Listed? && log[|log| - 3].listing.Rows?
    ensures NoRowNames(log[|log| - 3].listing.rows, image)
    ensures log[|log| - 2] == Mountpoint(true) && log[|log| - 1].Receipt? && log[|log| - 1].written
  {
    NoneMatch(log[|log| - 3].listing.rows, image);
  }

  /** A detach in plain numbers: the one before it exited with 16 unforced, and the run slept since. */
  lemma DetachMeans(log: seq<Event>, image: string, i: nat)
    requires Safe(log, image) && i < |log| && log[i].Detached?
    ensures i >= 1 && log[i - 1].Listed? && log[i - 1].listing.Rows? && WellFormed(log[i - 1].listing.rows)
    ensures SoleRowGives(log[i - 1].listing.rows, image, log[i].device)
    ensures forall j :: 0 <= j < i && log[j].Detached? ==> !log[j].forced && log[j].exit == Exit(16)
    ensures Detaches(log[..i]) <= 3 && (log[i].forced <==> Detaches(log[..i]) == 3)
    ensures Detaches(log[..i]) > 0 ==> i >= 2 && log[i - 2] == Slept(Detaches(log[..i]))
  {
    SafeAt(log, image, i);
    BacksMeans(log[i - 1].listing.rows, image, log[i].device);
    forall j | 0 <= j < i && log[j].Detached? ensures !log[j].forced && log[j].exit == Exit(16) {
      assert BusyAt(log[..i], image, j);
    }
  }

  /** The receipt lists what was seen, event by event. */
  lemma {:induction false} RecordedConcat(a: seq<Event>, b: seq<Event>, image: string)
    ensures Recorded(a + b, image) == Recorded(a, image) + Recorded(b, image)
  {
    if b == [] {
      assert a + b == a;
    } else {
      var front := b[..|b| - 1];
      assert (a + b)[..|a + b| - 1] == a + front;
      RecordedConcat(a, front, image);
      Associate(Recorded(a, image), Recorded(front, image), Record(b[|b| - 1], image));
    }
  }

  lemma RecordedOne(rows: seq<Row>, image: string, i: int, forced: bool, device: string, code: int)
    requires WellFormed(rows)
    ensures SoleRow(rows, image, i) ==> Recorded([Listed(Rows(rows))], image) == [OwnedImage(Some(rows[i]))]
    ensures (forall j :: 0 <= j < |rows| ==> rows[j].path != image) ==>
      Recorded([Listed(Rows(rows))], image) == [OwnedImage(None)]
    ensures Recorded([Detached(forced, device, Exit(code))], image) == [Command(forced, device, code)]
    ensures Recorded([Diagnosed], image) == [OpenFiles]
  {
    ListingMeans(rows, image);
    RecordedSingle(Listed(Rows(rows)), image);
    RecordedSingle(Detached(forced, device, Exit(code)), image);
    RecordedSingle(Diagnosed, image);
  }

  lemma RecordedSingle(e: Event, image: string)
    ensures Recorded([e], image) == Record(e, image)
  {
    assert [e][..0] == [];
  }

  // ---------------------------------------------------------------- how steps extend a run

  /** All earlier attempts were busy; none forced. */
  predicate Ready(log: seq<Event>, image: string, attempt: nat) {
    Safe(log, image) && AllBusy(log, image) && Detaches(log) == attempt && !HasForced(log)
  }

  lemma Last(log: seq<Event>, e: Event)
    ensures (log + [e])[..|log|] == log && (log + [e])[|log|] == e
  {
  }

  lemma BusyStays(log: seq<Event>, image: string, e: Event)
    requires AllBusy(log, image) && !e.Detached?
    ensures AllBusy(log + [e], image)
  {
    var l := log + [e];
    forall i | 0 <= i < |l| && l[i].Detached? ensures BusyAt(l, image, i) {
      assert BusyAt(log, image, i);
    }
  }

  lemma ForcedStays(log: seq<Event>, e: Event)
    ensures HasForced(log + [e]) <==> HasForced(log) || (e.Detached? && e.forced)
  {
    var l := log + [e];
    if HasForced(log) {
      var i :| 0 <= i < |log| && log[i].Detached? && log[i].forced;
      assert l[i] == log[i];
    }
    if e.Detached? && e.forced {
      assert l[|log|] == e;
    }
  }

  /** Anything but a detach keeps a run safe and ready. */
  lemma Quiet(log: seq<Event>, image: string, attempt: nat, e: Event)
    requires !e.Detached?
    ensures Safe(log, image) ==> Safe(log + [e], image)
    ensures Detaches(log + [e]) == Detaches(log) && (HasForced(log + [e]) <==> HasForced(log))
    ensures Ready(log, image, attempt) ==> Ready(log + [e], image, attempt)
  {
    Last(log, e);
    ForcedStays(log, e);
    if AllBusy(log, image) {
      BusyStays(log, image, e);
    }
  }

  lemma DetachStep(log: seq<Event>, image: string, attempt: nat, e: Event)
    requires Ready(log, image, attempt) && attempt <= LAST_ATTEMPT
    requires e.Detached? && (e.forced <==> attempt == LAST_ATTEMPT)
    requires log != [] && log[|log| - 1].Listed? && Backs(log[|log| - 1].listing, image, e.device)
    requires Rested(log[..|log| - 1])
    ensures Safe(log + [e], image) && Detaches(log + [e]) == attempt + 1 && (HasForced(log + [e]) <==> e.forced)
  {
    Last(log, e);
    ForcedStays(log, e);
  }

  lemma BusyStep(log: seq<Event>, image: string, attempt: nat, e: Event, l: Listing)
    requires Ready(log, image, attempt) && Safe(log + [e], image) && Detaches(log + [e]) == attempt + 1
    requires e.Detached? && !e.forced && e.exit == Exit(BUSY) && Attached(l, image)
    ensures Ready(log + [e] + [Listed(l)], image, attempt + 1)
  {
    var after := log + [e] + [Listed(l)];
    Quiet(log + [e], image, attempt, Listed(l));
    ForcedStays(log, e);
    forall i | 0 <= i < |after| && after[i].Detached? ensures BusyAt(after, image, i) {
      if i < |log| {
        assert BusyAt(log, image, i);
      }
    }
  }

  lemma {:induction false} Matched(rows: seq<Row>, image: string)
    ensures forall i :: 0 <= i < |Matches(rows, image)| ==>
      Matches(rows, image)[i].Row? && Matches(rows, image)[i].path == image
  {
    if rows != [] {
      Matched(rows[..|rows| - 1], image);
    }
  }

  // ---------------------------------------------------------------- the run

  datatype Step = Done(forced: bool) | Again | Stop(error: DisposalError)

  class Disposal {
    const image: string
    var observations: seq<Observation>
    ghost var log: seq<Event>

    ghost predicate Faithful()
      reads this
    {
      observations == Recorded(log, image)
    }

    constructor (image: string)
      ensures this.image == image && log == [] && observations == []
    {
      this.image := image;
      observations := [];
      log := [];
    }

    /** `hdiutil info -plist`, whatever it answers, and the owned row in it. */
    method Inventory() returns (r: Result<Option<Row>, DisposalError>, ghost listing: Listing)
      requires Faithful()
      modifies this
      ensures Faithful() && log == old(log) + [Listed(listing)]
      ensures r.Success? <==> Conclusive(listing, image)
      ensures r.Success? ==> r.value == OwnedRow(listing, image)
      ensures r.Failure? ==> Justifies(log, image, r.error)
    {
      var l: Listing := *;
      listing := l;
      Last(log, Listed(l));
      log := log + [Listed(l)];
      if l.Unreadable? {
        return Failure(NoInventory), l;
      }
      var matches := FindRows(l.rows, image);
      if matches.Failure? {
        return Failure(matches.error), l;
      }
      if |matches.value| > 1 {
        return Failure(Ambiguous), l;
      }
      var row := if matches.value == [] then None else Some(matches.value[0]);
      observations := observations + [OwnedImage(row)];
      return Success(row), l;
    }

    /** Whether the mountpoint is a plain directory of its parent's device. */
    method Released() returns (released: bool)
      requires Faithful()
      modifies `log
      ensures Faithful() && log == old(log) + [Mountpoint(released)]
    {
      released := *;
      Last(log, Mountpoint(released));
      log := log + [Mountpoint(released)];
    }

    method Run(forced: bool, device: string) returns (exit: Exit)
      requires Faithful()
      modifies this
      ensures Faithful() && log == old(log) + [Detached(forced, device, exit)]
    {
      exit := *;
      Last(log, Detached(forced, device, exit));
      log := log + [Detached(forced, device, exit)];
      if exit.Exit? {
        observations := observations + [Command(forced, device, exit.code)];
      }
    }

    /** One inventory, and the mountpoint when the image is gone; None means disposed. */
    method Look(ghost attempt: nat) returns (r: Result<Option<Row>, DisposalError>, ghost listing: Listing)
      requires Faithful() && Safe(log, image)
      modifies this
      ensures Faithful() && Safe(log, image)
      ensures Detaches(log) == old(Detaches(log)) && HasForced(log) == old(HasForced(log))
      ensures old(Ready(log, image, attempt)) ==> Ready(log, image, attempt)
      ensures r == Success(None) <==> EndsReleased(log, image)
      ensures r == Success(None) ==>
        Absent(listing, image) && log == old(log) + [Listed(listing)] + [Mountpoint(true)]
      ensures r.Failure? ==> Justifies(log, image, r.error)
      ensures r.Success? && r.value.Some? ==>
        Attached(listing, image) && log == old(log) + [Listed(listing)] && r.value.value == Matches(listing.rows, image)[0]
    {
      r, listing := Inventory();
      Quiet(old(log), image, attempt, Listed(listing));
      if r.Success? && r.value.None? {
        var released := Released();
        Quiet(old(log) + [Listed(listing)], image, attempt, Mountpoint(released));
        if !released {
          r := Failure(MountpointUncertain);
        }
      }
    }

    /** One round of the loop. */
    method Attempt(attempt: nat) returns (r: Step)
      requires attempt <= LAST_ATTEMPT && Faithful() && Ready(log, image, attempt) && Rested(log)
      modifies this
      ensures Faithful() && Safe(log, image) && Detaches(log) <= attempt + 1
      ensures r == Again ==> attempt < LAST_ATTEMPT && Ready(log, image, attempt + 1) && Rested(log)
      ensures r.Stop? ==> Justifies(log, image, r.error)
      ensures r.Done? <==> EndsReleased(log, image)
      ensures r.Done? ==> (r.forced <==> HasForced(log))
    {
      var seen, listing := Look(attempt);
      if seen.Failure? {
        return Stop(seen.error);
      }
      if seen.value.None? {
        return Done(false);
      }
      Last(old(log), Listed(listing));
      var disk := ChooseDisk(seen.value.value, listing);
      if disk.Failure? {
        return Stop(disk.error);
      }
      r := TryDetach(attempt, disk.value);
    }

    /** The disk of the row just listed. */
    method ChooseDisk(row: Row, ghost listing: Listing) returns (r: Result<string, DisposalError>)
      requires log != [] && log[|log| - 1] == Listed(listing)
      requires Attached(listing, image) && row == Matches(listing.rows, image)[0]
      ensures r.Success? ==> Backs(listing, image, r.value)
      ensures r.Failure? ==> Justifies(log, image, r.error)
    {
      Matched(listing.rows, image);
      r := BackingDisk(row);
    }

    /** Detach, look again, and decide. */
    method TryDetach(attempt: nat, disk: string) returns (r: Step)
      requires attempt <= LAST_ATTEMPT && Faithful() && Ready(log, image, attempt)
      requires log != [] && log[|log| - 1].Listed? && Backs(log[|log| - 1].listing, image, disk)
      requires Rested(log[..|log| - 1])
      modifies this
      ensures Faithful() && Safe(log, image) && Detaches(log) <= attempt + 1
      ensures r == Again ==> attempt < LAST_ATTEMPT && Ready(log, image, attempt + 1) && Rested(log)
      ensures r.Stop? ==> Justifies(log, image, r.error)
      ensures r.Done? <==> EndsReleased(log, image)
      ensures r.Done? ==> (r.forced <==> HasForced(log))
    {
      var forced := attempt == LAST_ATTEMPT;
      var exit := Run(forced, disk);
      DetachStep(old(log), image, attempt, Detached(forced, disk, exit));
      if exit.NoExit? {
        return Stop(ToolFailed);
      }
      var seen, listing := Look(attempt);
      if seen.Failure? {
        return Stop(seen.error);
      }
      if seen.value.None? {
        return Done(forced);
      }
      r := Decide(attempt, exit, Detached(forced, disk, exit), listing, old(log));
    }

    /** The image is still attached: give up, or wait and try again. */
    method Decide(attempt: nat, exit: Exit, ghost asked: Event, ghost listing: Listing, ghost before: seq<Event>) returns (r: Step)
      requires attempt <= LAST_ATTEMPT && exit.Exit? && Faithful()
      requires asked.Detached? && asked.exit == exit && (asked.forced <==> attempt == LAST_ATTEMPT)
      requires Attached(listing, image) && log == before + [asked] + [Listed(listing)]
      requires Ready(before, image, attempt) && Safe(before + [asked], image) && Detaches(before + [asked]) == attempt + 1
      requires Safe(log, image) && Detaches(log) == attempt + 1
      modifies this
      ensures Faithful() && Safe(log, image) && Detaches(log) <= attempt + 1
      ensures r == Again ==> attempt < LAST_ATTEMPT && Ready(log, image, attempt + 1) && Rested(log)
      ensures r.Stop? ==> Justifies(log, image, r.error)
      ensures !r.Done? && !EndsReleased(log, image)
    {
      if exit.code != BUSY || attempt == LAST_ATTEMPT {
        if exit.code == BUSY {
          Note(Diagnosed, attempt);
        }
        return Stop(StillAttached);
      }
      BusyStep(before, image, attempt, asked, listing);
      Note(Slept(attempt + 1), attempt + 1);
      return Again;
    }

    /** A step that only waits or looks at open files. */
    method Note(e: Event, ghost attempt: nat)
      requires Faithful() && Safe(log, image) && (e.Slept? || e.Diagnosed?)
      modifies this
      ensures Faithful() && Safe(log, image) && log == old(log) + [e]
      ensures Detaches(log) == old(Detaches(log)) && (old(Ready(log, image, attempt)) ==> Ready(log, image, attempt))
    {
      Quiet(log, image, attempt, e);
      Last(log, e);
      log := log + [e];
      if e.Diagnosed? {
        observations := observations + [OpenFiles];
      }
    }

    /** The four attempts. */
    method Attempts() returns (r: Result<bool, DisposalError>)
      requires Faithful() && log == []
      modifies this
      ensures Faithful() && Safe(log, image) && Detaches(log) <= LAST_ATTEMPT + 1
      ensures r.Success? <==> EndsReleased(log, image)
      ensures r.Success? ==> (r.value <==> HasForced(log))
      ensures r.Failure? ==> Justifies(log, image, r.error)
    {
      for attempt := 0 to LAST_ATTEMPT + 1
        invariant Faithful() && Ready(log, image, attempt) && Rested(log) && !EndsReleased(log, image)
      {
        var step := Attempt(attempt);
        match step
        case Done(forced) => return Success(forced);
        case Stop(error) => return Failure(error);
        case Again =>
      }
      return Failure(Incomplete);
    }

    /** `detach_owned_image`, with the receipt its `finally` writes. */
    method Detach() returns (r: Result<bool, DisposalError>)
      requires Faithful() && log == []
      modifies this
      ensures Safe(log, image) && Detaches(log) <= LAST_ATTEMPT + 1
      ensures log != [] && log[|log| - 1].Receipt? && log[|log| - 1].observations == Recorded(log[..|log| - 1], image)
      ensures r.Success? <==> EndsDisposed(log, image)
      ensures r.Success? ==> (r.value <==> HasForced(log))
      ensures r.Success? ==>
        && |log| >= 3 && log[|log| - 3].Listed? && log[|log| - 3].listing.Rows?
        && NoRowNames(log[|log| - 3].listing.rows, image)
      ensures r == Failure(ReceiptLost) ==> EndsReleased(log[..|log| - 1], image) && !log[|log| - 1].written
      ensures r.Failure? && r.error != ReceiptLost ==> Justifies(log[..|log| - 1], image, r.error) && r.error != Incomplete
    {
      r := Attempts();
      NeverIncomplete(log, image);
      var written: bool := *;
      ghost var receipt := Receipt(written, observations);
      Quiet(log, image, 0, receipt);
      Last(log, receipt);
      log := log + [receipt];
      if !written && r.Success? {
        r := Failure(ReceiptLost);
      }
      if r.Success? {
        DisposedMeans(log, image);
      }
    }
  }

  method FindRows(rows: seq<Row>, image: string) returns (r: Result<seq<Row>, DisposalError>)
    ensures r == if WellFormed(rows) then Success(Matches(rows, image)) else Failure(MalformedRow)
  {
    var matches: seq<Row> := [];
    for i := 0 to |rows|
      invariant WellFormed(rows[..i]) && matches == Matches(rows[..i], image)
    {
      assert rows[..i + 1][..i] == rows[..i];
      if rows[i].Malformed? {
        return Failure(MalformedRow);
      }
      if rows[i].path == image {
        matches := matches + [rows[i]];
      }
    }
    assert rows[..|rows|] == rows;
    return Success(matches);
  }

  method BackingDisk(row: Row) returns (r: Result<string, DisposalError>)
    requires row.Row?
    ensures r.Success? ==> BacksOnly(row, r.value)
    ensures r.Failure? ==> forall device :: !BacksOnly(row, device)
    ensures r.Failure? ==> r.error == if row.entities.None? then NoDeviceInventory else NoUniqueDevice
  {
    if row.entities.None? {
      return Failure(NoDeviceInventory);
    }
    var disks := Disks(row.entities.value);
    if |disks| != 1 || disks[0].NoName? || !IsWholeDisk(disks[0].text) {
      return Failure(NoUniqueDevice);
    }
    return Success(disks[0].text);
  }
}
