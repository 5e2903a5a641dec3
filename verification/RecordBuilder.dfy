/**
  From locations to sorted records: group by file, read each file once, drop lines that do not exist,
  sort by epic, feature, status and text.
 */
module RecordBuilder {
  import opened Grouping
  import opened Orders
  import opened GoText
  import opened LocationParser

  datatype Record = Record(epic: string, feature: string, status: string, text: string, sample: string)

  const UNKNOWN_EPIC := "(unknown)"

  /** features/<epic>/... belongs to <epic>; everything else is unknown. */
  function EpicName(rel: string): string {
    var parts := Split(rel, '/');
    if |parts| >= 2 && parts[0] == "features" then parts[1] else UNKNOWN_EPIC
  }

  /** What the program sees of the machine it runs on. */
  datatype World = World(
    read: string -> Option<seq<string>>,
    wd: Option<string>,
    relTo: (string, string) -> Option<string>)
  {
    /** The path as shown: relative to the working directory unless that fails or leads upwards. */
    function RelativePath(path: string): (shown: string)
      ensures ".." <= shown ==> shown == path
    {
      if wd.None? then path
      else
        match relTo(wd.value, path)
        case None => path
        case Some(rel) => if ".." <= rel then path else rel
    }

    predicate Readable(loc: Location) {
      read(loc.file).Some?
    }

    /** The record of a location whose line is there. */
    function RecordAt(loc: Location, lines: seq<string>): Record
      requires 1 <= loc.line <= |lines|
    {
      var rel := RelativePath(loc.file);
      Record(EpicName(rel), BaseName(loc.file), loc.status, TrimSpace(lines[loc.line - 1]),
             rel + ":" + Decimal(loc.line))
    }

    /** The record a location stands for, if its file can be read and has that line. */
    function RecordOf(loc: Location): Option<Record> {
      match read(loc.file)
      case None => None
      case Some(lines) =>
        if 1 <= loc.line <= |lines| then Some(RecordAt(loc, lines)) else None
    }

    /** The path lies below the working directory as far as filepath.Rel can tell. */
    predicate LiesBelow(path: string) {
      wd.Some? && relTo(wd.value, path).Some? && !(".." <= relTo(wd.value, path).value)
    }

    /** The location names an existing line of a readable file. */
    predicate NamesLine(loc: Location) {
      read(loc.file).Some? && 1 <= loc.line <= |read(loc.file).value|
    }

    /** Field by field: what the record of a location is. */
    ghost predicate IsRecordOf(loc: Location, rec: Record) {
      && NamesLine(loc)
      && rec.status == loc.status
      && rec.text == TrimSpace(read(loc.file).value[loc.line - 1])
      && rec.feature == BaseName(loc.file)
      && var shown := if LiesBelow(loc.file) then relTo(wd.value, loc.file).value else loc.file;
      && rec.epic == EpicName(shown)
      && rec.sample == shown + ":" + Decimal(loc.line)
    }

    /** Paths with a NUL byte cannot be opened, and filepath.Rel does not invent one. */
    ghost predicate NulFree() {
      && (forall p :: NUL in p ==> read(p) == None)
      && (forall d, p :: wd == Some(d) && NUL !in p && relTo(d, p).Some? ==> NUL !in relTo(d, p).value)
    }
  }

  /** A path that filepath.Rel leads down to is shown as that; every other path is shown as given. */
  lemma RelativePathIff(world: World, path: string, shown: string)
    ensures world.RelativePath(path) == shown <==>
            || (exists d, rel :: world.wd == Some(d) && world.relTo(d, path) == Some(rel)
                                 && !(".." <= rel) && shown == rel)
            || (shown == path && (world.wd == None || world.relTo(world.wd.value, path) == None
                                  || ".." <= world.relTo(world.wd.value, path).value))
  {
  }

  lemma RecordOfIff(world: World, loc: Location, rec: Record)
    ensures world.RecordOf(loc) == Some(rec) <==> world.IsRecordOf(loc, rec)
    ensures world.RecordOf(loc).Some? <==> world.NamesLine(loc)
  {
  }

  /** An existing line of a file below the working directory is filed under the epic its relative path names. */
  lemma RelativeRecord(world: World, loc: Location, d: string, rel: string, epic: string)
    requires world.wd == Some(d) && world.relTo(d, loc.file) == Some(rel) && !(".." <= rel)
    requires world.NamesLine(loc) && '/' !in epic && "features/" + epic + "/" <= rel
    ensures world.RecordOf(loc).Some?
    ensures var rec := world.RecordOf(loc).value;
      rec.epic == epic && rec.sample == rel + ":" + Decimal(loc.line) && rec.feature == BaseName(loc.file)
  {
    EpicNameIff(rel, epic);
  }

  // ----- the order of the records -----

  /** The comparator of the record sort. The sample is not compared. */
  predicate RecordLess(a: Record, b: Record) {
    if a.epic != b.epic then Less(a.epic, b.epic)
    else if a.feature != b.feature then Less(a.feature, b.feature)
    else if a.status != b.status then Less(a.status, b.status)
    else Less(a.text, b.text)
  }

  /** The record without its sample. */
  function Blind(r: Record): Record {
    r.(sample := "")
  }

  lemma RecordLessTransitive(a: Record, b: Record, c: Record)
    ensures RecordLess(a, b) && RecordLess(b, c) ==> RecordLess(a, c)
    ensures !RecordLess(a, b) && !RecordLess(b, c) ==> !RecordLess(a, c)
  {
    LessOrders(a.epic, b.epic, c.epic);
    LessOrders(a.feature, b.feature, c.feature);
    LessOrders(a.status, b.status, c.status);
    LessOrders(a.text, b.text, c.text);
  }

  lemma RecordLessTies(a: Record, b: Record)
    ensures Tied(RecordLess, a, b) <==> Blind(a) == Blind(b)
  {
    LessOrders(a.epic, b.epic, a.epic);
    LessOrders(a.feature, b.feature, a.feature);
    LessOrders(a.status, b.status, a.status);
    LessOrders(a.text, b.text, a.text);
  }

  /** The comparator is legal for every input, and it ties exactly the records that differ in their sample only. */
  lemma RecordLessIsLegal()
    ensures StrictWeakOrder(RecordLess)
    ensures forall a: Record, b: Record :: Tied(RecordLess, a, b) <==> Blind(a) == Blind(b)
  {
    forall a: Record, b: Record ensures Tied(RecordLess, a, b) <==> Blind(a) == Blind(b) {
      RecordLessTies(a, b);
    }
    forall a: Record ensures !RecordLess(a, a) {
      RecordLessTies(a, a);
    }
    forall a: Record, b: Record, c: Record
      ensures RecordLess(a, b) && RecordLess(b, c) ==> RecordLess(a, c)
      ensures !RecordLess(a, b) && !RecordLess(b, c) ==> !RecordLess(a, c)
    {
      RecordLessTransitive(a, b, c);
    }
  }

  // ----- building -----

  datatype BuildResult = Built(records: seq<Record>) | Unreadable(path: string)

  function FileOf(loc: Location): string {
    loc.file
  }

  /** What a run may return, whatever order the file map is visited in and however the sort treats ties. */
  ghost predicate IsBuild(world: World, locations: seq<Location>, r: BuildResult) {
    match r
    case Unreadable(path) => exists loc :: loc in locations && loc.file == path && !world.Readable(loc)
    case Built(records) =>
      && (forall loc :: loc in locations ==> world.Readable(loc))
      && multiset(records) == multiset(Collect(locations, world.RecordOf))
      && SortedBy(records, RecordLess)
  }

  method FileRecords(world: World, file: string, lines: seq<string>, locations: seq<Location>)
    returns (records: seq<Record>)
    requires world.read(file) == Some(lines)
    requires forall loc :: loc in locations ==> loc.file == file
    ensures records == Collect(locations, world.RecordOf)
  {
    records := [];
    for i := 0 to |locations|
      invariant records == Collect(locations[..i], world.RecordOf)
    {
      var loc := locations[i];
      CollectSnoc(locations[..i], loc, world.RecordOf);
      assert locations[..i + 1] == locations[..i] + [loc];
      assert loc in locations;
      if loc.line <= 0 || loc.line > |lines| {
        continue;
      }
      records := records + [world.RecordAt(loc, lines)];
    }
    assert locations[..|locations|] == locations;
  }

  method GroupByFile(locations: seq<Location>) returns (byFile: map<string, seq<Location>>)
    ensures byFile.Keys == KeySet(locations, FileOf)
    ensures forall file :: file in byFile ==> byFile[file] == Group(locations, FileOf, file)
  {
    byFile := map[];
    for i := 0 to |locations|
      invariant byFile.Keys == KeySet(locations[..i], FileOf)
      invariant forall file :: file in byFile ==> byFile[file] == Group(locations[..i], FileOf, file)
    {
      var loc := locations[i];
      assert locations[..i + 1] == locations[..i] + [loc];
      KeySetSnoc(locations[..i], loc, FileOf);
      forall file ensures Group(locations[..i + 1], FileOf, file)
                          == Group(locations[..i], FileOf, file) + if loc.file == file then [loc] else [] {
        GroupSnoc(locations[..i], loc, FileOf, file);
      }
      GroupElements(locations[..i], FileOf, loc.file);
      var known := if loc.file in byFile then byFile[loc.file] else [];
      byFile := byFile[loc.file := known + [loc]];
    }
    assert locations[..|locations|] == locations;
  }

  method SortRecords(records: seq<Record>) returns (sorted: seq<Record>)
    ensures multiset(sorted) == multiset(records)
    ensures SortedBy(sorted, RecordLess)
  {
    RecordLessIsLegal();
    var a := new Record[|records|](i requires 0 <= i < |records| => records[i]);
    assert a[..] == records;
    SortSlice(a, RecordLess);
    sorted := a[..];
  }

  method BuildRecords(world: World, locations: seq<Location>) returns (r: BuildResult)
    ensures IsBuild(world, locations, r)
    ensures r.Built? ==> Conserves(world, locations, r.records)
  {
    var byFile := GroupByFile(locations);
    var files := Enumerate(byFile.Keys);
    var records: seq<Record> := [];
    for n := 0 to |files|
      invariant records == Collect(FlattenGroups(locations, FileOf, files[..n]), world.RecordOf)
      invariant forall m :: 0 <= m < n ==> world.read(files[m]).Some?
    {
      var file := files[n];
      assert file in byFile;
      GroupElements(locations, FileOf, file);
      match world.read(file) {
        case None =>
          var loc := byFile[file][0];
          assert loc in locations && loc.file == file;
          return Unreadable(file);
        case Some(lines) =>
          var more := FileRecords(world, file, lines, byFile[file]);
          records := records + more;
          assert files[..n + 1][..n] == files[..n];
          CollectConcat(FlattenGroups(locations, FileOf, files[..n]), Group(locations, FileOf, file), world.RecordOf);
      }
    }
    assert files[..|files|] == files;
    forall loc | loc in locations ensures world.Readable(loc) {
      KeySetMember(locations, FileOf, loc);
      assert loc.file in files;
    }
    PartitionPermutation(locations, FileOf, files);
    CollectPermutation(FlattenGroups(locations, FileOf, files), locations, world.RecordOf);
    var sorted := SortRecords(records);
    r := Built(sorted);
    BuildConserves(world, locations, sorted);
  }

  // ----- what every run has in common -----

  /**
    Two runs on the same locations in any order succeed or fail together, and fail exactly if a mentioned
    file is unreadable. If they succeed, they return permutations of the same records that agree at every
    index on everything but the sample.
   */
  lemma BuildsAgree(world: World, xs: seq<Location>, ys: seq<Location>, r: BuildResult, q: BuildResult)
    requires multiset(xs) == multiset(ys)
    requires IsBuild(world, xs, r) && IsBuild(world, ys, q)
    ensures r.Built? <==> q.Built?
    ensures r.Unreadable? <==> exists loc :: loc in xs && !world.Readable(loc)
    ensures r.Built? ==> multiset(r.records) == multiset(q.records) && |r.records| == |q.records|
    ensures r.Built? ==> forall i :: 0 <= i < |r.records| ==> Blind(r.records[i]) == Blind(q.records[i])
  {
    PermutationMembers(xs, ys);
    if r.Built? {
      CollectPermutation(xs, ys, world.RecordOf);
      RecordLessIsLegal();
      SortedPermutationsTie(r.records, q.records, RecordLess);
      forall i | 0 <= i < |r.records| ensures Blind(r.records[i]) == Blind(q.records[i]) {
        assert Tied(RecordLess, r.records[i], q.records[i]);
      }
    }
  }

  lemma RecordsAreCollected(world: World, locations: seq<Location>, records: seq<Record>)
    requires IsBuild(world, locations, Built(records))
    ensures forall rec :: rec in records <==> exists loc :: loc in locations && world.RecordOf(loc) == Some(rec)
  {
    PermutationMembers(records, Collect(locations, world.RecordOf));
    CollectElements(locations, world.RecordOf);
  }

  /** A record is in the result exactly if some location names an existing line with these fields. */
  lemma RecordsAreImages(world: World, locations: seq<Location>, records: seq<Record>, rec: Record)
    requires IsBuild(world, locations, Built(records))
    ensures rec in records <==> exists loc :: loc in locations && world.IsRecordOf(loc, rec)
  {
    RecordsAreCollected(world, locations, records);
    forall loc ensures world.RecordOf(loc) == Some(rec) <==> world.IsRecordOf(loc, rec) {
      RecordOfIff(world, loc, rec);
    }
  }

  /** Some record of the location satisfies q. */
  ghost function LocationWith(world: World, q: Record -> bool): Location -> bool {
    loc => exists rec :: world.IsRecordOf(loc, rec) && q(rec)
  }

  /** The records of a result that satisfy q are as many as the locations whose record does. */
  lemma BuildCounts(world: World, locations: seq<Location>, records: seq<Record>, q: Record -> bool)
    requires IsBuild(world, locations, Built(records))
    ensures CountOf(records, q) == CountOf(locations, LocationWith(world, q))
  {
    CountPermutation(records, Collect(locations, world.RecordOf), q);
    forall loc | loc in locations
      ensures LocationWith(world, q)(loc) <==> world.RecordOf(loc).Some? && q(world.RecordOf(loc).value)
    {
      LocationWithIff(world, loc, q);
    }
    CollectedCount(locations, world.RecordOf, q, LocationWith(world, q));
  }

  lemma LocationWithIff(world: World, loc: Location, q: Record -> bool)
    ensures LocationWith(world, q)(loc) <==> world.RecordOf(loc).Some? && q(world.RecordOf(loc).value)
  {
    forall rec ensures world.IsRecordOf(loc, rec) <==> world.RecordOf(loc) == Some(rec) {
      RecordOfIff(world, loc, rec);
    }
  }

  /**
    Conservation: the list holds every record exactly as often as there are locations that name an existing
    line with these fields, and as many records as there are locations that name an existing line.
   */
  ghost predicate Conserves(world: World, locations: seq<Location>, records: seq<Record>) {
    && |records| == CountOf(locations, world.NamesLine)
    && forall rec :: multiset(records)[rec] == CountOf(locations, loc => world.IsRecordOf(loc, rec))
  }

  lemma BuildConserves(world: World, locations: seq<Location>, records: seq<Record>)
    requires IsBuild(world, locations, Built(records))
    ensures Conserves(world, locations, records)
  {
    RecordTotal(world, locations, records);
    forall rec ensures multiset(records)[rec] == CountOf(locations, loc => world.IsRecordOf(loc, rec)) {
      RecordMultiplicity(world, locations, records, rec);
    }
  }

  lemma RecordTotal(world: World, locations: seq<Location>, records: seq<Record>)
    requires IsBuild(world, locations, Built(records))
    ensures |records| == CountOf(locations, world.NamesLine)
  {
    var any := (rec: Record) => true;
    CountAll(records, any);
    CountPermutation(records, Collect(locations, world.RecordOf), any);
    forall loc | loc in locations ensures world.NamesLine(loc) <==> world.RecordOf(loc).Some? {
      RecordOfIff(world, loc, Record("", "", "", "", ""));
    }
    CollectedCount(locations, world.RecordOf, any, world.NamesLine);
  }

  lemma RecordMultiplicity(world: World, locations: seq<Location>, records: seq<Record>, rec: Record)
    requires IsBuild(world, locations, Built(records))
    ensures multiset(records)[rec] == CountOf(locations, loc => world.IsRecordOf(loc, rec))
  {
    var same, here := (r: Record) => r == rec, (loc: Location) => world.IsRecordOf(loc, rec);
    CountIsMultiplicity(records, rec, same);
    CountPermutation(records, Collect(locations, world.RecordOf), same);
    forall loc | loc in locations ensures here(loc) <==> world.RecordOf(loc).Some? && same(world.RecordOf(loc).value) {
      RecordOfIff(world, loc, rec);
    }
    CollectedCount(locations, world.RecordOf, same, here);
    assert CountOf(locations, here) == CountOf(locations, loc => world.IsRecordOf(loc, rec)) by {
      assert Hits(locations, here) == Hits(locations, loc => world.IsRecordOf(loc, rec));
    }
  }

  /** Some run on the locations exists. */
  lemma BuildExists(world: World, locations: seq<Location>) returns (r: BuildResult)
    ensures IsBuild(world, locations, r)
  {
    if loc :| loc in locations && !world.Readable(loc) {
      r := Unreadable(loc.file);
    } else {
      RecordLessIsLegal();
      var records := SortedExists(Collect(locations, world.RecordOf), RecordLess);
      r := Built(records);
    }
  }

  function Exchange(records: seq<Record>, i: nat, j: nat): seq<Record>
    requires i < |records| && j < |records|
  {
    records[i := records[j]][j := records[i]]
  }

  /** Exchanging two records of a result that differ in the sample only gives another possible result. */
  lemma ExchangedIsBuild(world: World, locations: seq<Location>, records: seq<Record>, i: nat, j: nat)
    requires IsBuild(world, locations, Built(records))
    requires i < j < |records| && Blind(records[i]) == Blind(records[j])
    ensures IsBuild(world, locations, Built(Exchange(records, i, j)))
    ensures multiset(Exchange(records, i, j)) == multiset(records)
  {
    var other := Exchange(records, i, j);
    RecordLessIsLegal();
    forall m, n | 0 <= m < n < |other| ensures !RecordLess(other[n], other[m]) {
      BlindIsCompared(other[n], other[m], records[n], records[m]);
    }
  }

  /** The comparator does not see samples. */
  lemma BlindIsCompared(a: Record, b: Record, c: Record, d: Record)
    requires Blind(a) == Blind(c) && Blind(b) == Blind(d)
    ensures RecordLess(a, b) <==> RecordLess(c, d)
  {
  }

  /** No two records differ in their sample only. */
  ghost predicate IsUntied(records: seq<Record>) {
    forall r, q :: r in records && q in records && Blind(r) == Blind(q) ==> r == q
  }

  /** If no two records differ in the sample only, the sorted list is unique. */
  lemma BuildIsUnique(world: World, locations: seq<Location>, xs: seq<Record>, ys: seq<Record>)
    requires IsBuild(world, locations, Built(xs)) && IsBuild(world, locations, Built(ys))
    requires IsUntied(xs)
    ensures xs == ys
  {
    BuildsAgree(world, locations, locations, Built(xs), Built(ys));
    PermutationMembers(xs, ys);
    forall i | 0 <= i < |xs| ensures xs[i] == ys[i] {
      assert xs[i] in xs && ys[i] in ys;
    }
  }

  // ----- no NUL byte in the names -----

  lemma EpicNameOf(epic: string, tail: string)
    requires '/' !in epic
    requires tail == "" || tail[0] == '/'
    ensures EpicName("features/" + epic + tail) == epic
  {
    assert "features/" + epic + tail == "features" + ['/'] + (epic + tail);
    SplitFirst("features", '/', epic + tail);
    if tail == "" {
      assert epic + tail == epic;
      SplitNone(epic, '/');
    } else {
      assert epic + tail == epic + ['/'] + tail[1..];
      SplitFirst(epic, '/', tail[1..]);
    }
  }

  /** A path is below features/ exactly if its first element is features and there is a second. */
  lemma FeaturesFirst(rel: string)
    ensures "features/" <= rel <==> |Split(rel, '/')| >= 2 && Split(rel, '/')[0] == "features"
  {
    var parts := Split(rel, '/');
    JoinSplit(rel, '/');
    if "features/" <= rel {
      var tail := rel[|"features/"|..];
      assert rel == "features/" + tail == "features" + ['/'] + tail;
      SplitFirst("features", '/', tail);
    }
    if |parts| >= 2 && parts[0] == "features" {
      assert rel == "features" + ['/'] + Join(parts[1..], '/');
    }
  }

  /** What is below features/ starts with the epic, and goes on with a slash if it goes on. */
  lemma EpicNameStarts(rel: string)
    requires "features/" <= rel
    ensures rel == "features/" + EpicName(rel) || "features/" + EpicName(rel) + "/" <= rel
  {
    var parts := Split(rel, '/');
    FeaturesFirst(rel);
    JoinSplit(rel, '/');
    var rest := parts[1..];
    assert rel == "features" + ['/'] + Join(rest, '/');
    if |rest| > 1 {
      assert Join(rest, '/') == rest[0] + ['/'] + Join(rest[1..], '/');
      assert rel == "features/" + rest[0] + "/" + Join(rest[1..], '/');
    } else {
      assert rel == "features/" + rest[0];
    }
  }

  /** Exactly the paths below features/<epic> belong to an epic; the unknown epic has all other paths besides. */
  lemma EpicNameIff(rel: string, epic: string)
    requires '/' !in epic
    ensures EpicName(rel) == epic <==>
            || rel == "features/" + epic
            || "features/" + epic + "/" <= rel
            || (epic == "(unknown)" && !("features/" <= rel))
  {
    if rel == "features/" + epic {
      EpicNameOf(epic, "");
      assert "features/" + epic + "" == rel;
    }
    if "features/" + epic + "/" <= rel {
      var tail := rel[|"features/" + epic|..];
      assert rel == "features/" + epic + tail;
      EpicNameOf(epic, tail);
    }
    FeaturesFirst(rel);
    if "features/" <= rel {
      EpicNameStarts(rel);
    }
  }

  lemma EpicNameChars(rel: string)
    requires NUL !in rel
    ensures NUL !in EpicName(rel)
  {
    if |Split(rel, '/')| >= 2 {
      SplitChars(rel, '/', 1);
    }
  }

  /** The names a record carries can be told apart from the separator of the composite keys. */
  lemma NamesAreNulFree(world: World, loc: Location)
    requires world.NulFree()
    requires world.RecordOf(loc).Some?
    ensures NUL !in world.RecordOf(loc).value.epic && NUL !in world.RecordOf(loc).value.feature
  {
    EpicNameChars(world.RelativePath(loc.file));
    BaseNameChars(loc.file);
  }
}
