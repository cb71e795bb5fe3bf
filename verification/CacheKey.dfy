/** `Cache.ComputeKey`: what goes into a project's content-addressed key, and
    what can be recovered from it. */
module CacheKey {
  import Lists
  import opened Ordinal
  import opened RecordStream

  /** A SHA-256 digest. */
  type Digest = k: seq<Byte> | |k| == 32 witness seq(32, _ => 0)

  type Sha = seq<Byte> -> Digest

  datatype Document = Document(sortKey: Path, text: string)
  datatype KeyedProject = KeyedProject(path: Path, key: Digest)

  /** Everything `ComputeKey` reads about one project. */
  datatype ProjectInputs = ProjectInputs(
    csproj: seq<Byte>,
    detKey: seq<Byte>,
    additional: seq<Document>,
    config: seq<Document>)

  // ---- the records, in the order they are appended ----

  function Ascii(s: string): seq<Byte> {
    seq(|s|, i requires 0 <= i < |s| => if s[i] < 128 as char then s[i] as int else 63)
  }

  function PathKey(d: Document): Path { d.sortKey }
  function ProjectPath(k: KeyedProject): Path { k.path }

  /** Two records per item: its path, then its content. */
  function Section<T>(
    pathTag: seq<Byte>, dataTag: seq<Byte>, key: T -> Path, data: T -> seq<Byte>, xs: seq<T>): seq<Record> {
    if xs == [] then []
    else [Record(pathTag, Utf8(key(xs[0]))), Record(dataTag, data(xs[0]))]
         + Section(pathTag, dataTag, key, data, xs[1..])
  }

  function DocumentBytes(d: Document): seq<Byte> { Utf8(d.text) }
  function KeyBytes(k: KeyedProject): seq<Byte> { k.key }

  function AddSection(docs: seq<Document>): seq<Record> {
    Section(Ascii("add-path"), Ascii("add-bytes"), PathKey, DocumentBytes, OrderBy(PathKey, docs))
  }

  function CfgSection(docs: seq<Document>): seq<Record> {
    Section(Ascii("cfg-path"), Ascii("cfg-bytes"), PathKey, DocumentBytes, OrderBy(PathKey, docs))
  }

  function RefSection(refs: seq<KeyedProject>): seq<Record> {
    Section(Ascii("proj-ref-path"), Ascii("proj-ref-key"), ProjectPath, KeyBytes, OrderBy(ProjectPath, refs))
  }

  function Records(p: ProjectInputs, refs: seq<KeyedProject>): seq<Record> {
    [Record(Ascii("csproj"), p.csproj), Record(Ascii("roslyn-detkey"), p.detKey)]
    + (AddSection(p.additional) + (CfgSection(p.config) + RefSection(refs)))
  }

  function Stream(p: ProjectInputs, refs: seq<KeyedProject>): seq<Byte> {
    Encode(Records(p, refs))
  }

  /** Every length fits its prefix, as every .NET array length does. */
  ghost predicate Encodable(p: ProjectInputs, refs: seq<KeyedProject>) {
    forall r :: r in Records(p, refs) ==> Fits(r)
  }

  // ---- what is recorded, place by place ----

  ghost predicate IsRecord(r: Record, tag: string, data: seq<Byte>) {
    r.data == data && |r.tag| == |tag| && forall i :: 0 <= i < |tag| ==> r.tag[i] == tag[i] as int
  }

  lemma {:induction false} SectionAt<T>(
    pathTag: seq<Byte>, dataTag: seq<Byte>, key: T -> Path, data: T -> seq<Byte>, xs: seq<T>, i: nat)
    requires i < |xs|
    ensures var rs := Section(pathTag, dataTag, key, data, xs);
      && |rs| == 2 * |xs|
      && rs[2 * i] == Record(pathTag, Utf8(key(xs[i]))) && rs[2 * i + 1] == Record(dataTag, data(xs[i]))
    decreases |xs|
  {
    SectionLength(pathTag, dataTag, key, data, xs);
    if i > 0 { SectionAt(pathTag, dataTag, key, data, xs[1..], i - 1); }
  }

  lemma {:induction false} SectionLength<T>(
    pathTag: seq<Byte>, dataTag: seq<Byte>, key: T -> Path, data: T -> seq<Byte>, xs: seq<T>)
    ensures |Section(pathTag, dataTag, key, data, xs)| == 2 * |xs|
    decreases |xs|
  {
    if xs != [] { SectionLength(pathTag, dataTag, key, data, xs[1..]); }
  }

  /** A section at an offset holds the path and the content of each of these. */
  ghost predicate Listed(
    rs: seq<Record>, at: nat, pathTag: string, dataTag: string, paths: seq<Path>, data: seq<seq<Byte>>) {
    && |paths| == |data| && at + 2 * |paths| <= |rs|
    && forall i :: 0 <= i < |paths| ==>
         IsRecord(rs[at + 2 * i], pathTag, Utf8(paths[i])) && IsRecord(rs[at + 2 * i + 1], dataTag, data[i])
  }

  ghost function Paths(docs: seq<Document>): (r: seq<Path>)
    ensures |r| == |docs|
  {
    seq(|docs|, i requires 0 <= i < |docs| => docs[i].sortKey)
  }

  ghost function Texts(docs: seq<Document>): (r: seq<seq<Byte>>)
    ensures |r| == |docs|
  {
    seq(|docs|, i requires 0 <= i < |docs| => Utf8(docs[i].text))
  }

  lemma SectionIsListed(
    before: seq<Record>, section: seq<Record>, after: seq<Record>, pathTag: string, dataTag: string,
    paths: seq<Path>, data: seq<seq<Byte>>)
    requires |section| == 2 * |paths| && |paths| == |data|
    requires forall i :: 0 <= i < |paths| ==> IsRecord(section[2 * i], pathTag, Utf8(paths[i]))
    requires forall i :: 0 <= i < |paths| ==> IsRecord(section[2 * i + 1], dataTag, data[i])
    ensures Listed(before + section + after, |before|, pathTag, dataTag, paths, data)
  {
    var rs := before + section + after;
    forall i | 0 <= i < |paths|
      ensures IsRecord(rs[|before| + 2 * i], pathTag, Utf8(paths[i]))
      ensures IsRecord(rs[|before| + 2 * i + 1], dataTag, data[i])
    {
      assert rs[|before| + 2 * i] == section[2 * i] && rs[|before| + 2 * i + 1] == section[2 * i + 1];
    }
  }

  ghost predicate IsAscii(s: string) { forall i :: 0 <= i < |s| ==> s[i] < 128 as char }

  lemma ItemsAreListed<T>(
    before: seq<Record>, key: T -> Path, data: T -> seq<Byte>, xs: seq<T>, after: seq<Record>,
    pathTag: string, dataTag: string, paths: seq<Path>, contents: seq<seq<Byte>>)
    requires IsAscii(pathTag) && IsAscii(dataTag) && |paths| == |xs| && |contents| == |xs|
    requires forall i :: 0 <= i < |xs| ==> paths[i] == key(xs[i]) && contents[i] == data(xs[i])
    ensures var section := Section(Ascii(pathTag), Ascii(dataTag), key, data, xs);
      Listed(before + (section + after), |before|, pathTag, dataTag, paths, contents)
  {
    var section := Section(Ascii(pathTag), Ascii(dataTag), key, data, xs);
    SectionLength(Ascii(pathTag), Ascii(dataTag), key, data, xs);
    forall i | 0 <= i < |xs|
      ensures IsRecord(section[2 * i], pathTag, Utf8(paths[i]))
      ensures IsRecord(section[2 * i + 1], dataTag, contents[i])
    {
      SectionAt(Ascii(pathTag), Ascii(dataTag), key, data, xs, i);
    }
    SectionIsListed(before, section, after, pathTag, dataTag, paths, contents);
    Lists.Associate(before, section, after);
  }

  ghost function ProjectPaths(refs: seq<KeyedProject>): (r: seq<Path>)
    ensures |r| == |refs|
  {
    seq(|refs|, i requires 0 <= i < |refs| => refs[i].path)
  }

  ghost function ProjectKeys(refs: seq<KeyedProject>): (r: seq<seq<Byte>>)
    ensures |r| == |refs|
  {
    seq(|refs|, i requires 0 <= i < |refs| => refs[i].key)
  }

  /** The records of a project with these documents, in this order. */
  ghost predicate Holds(
    rs: seq<Record>, p: ProjectInputs, docs: seq<Document>, configs: seq<Document>, projects: seq<KeyedProject>) {
    && |rs| == 2 + 2 * |docs| + 2 * |configs| + 2 * |projects|
    && IsRecord(rs[0], "csproj", p.csproj) && IsRecord(rs[1], "roslyn-detkey", p.detKey)
    && Listed(rs, 2, "add-path", "add-bytes", Paths(docs), Texts(docs))
    && Listed(rs, 2 + 2 * |docs|, "cfg-path", "cfg-bytes", Paths(configs), Texts(configs))
    && Listed(rs, 2 + 2 * |docs| + 2 * |configs|, "proj-ref-path", "proj-ref-key",
              ProjectPaths(projects), ProjectKeys(projects))
  }

  /** Reading the stream back finds the project file and the compiler's key, and
      then every document and every project of the closure, each with its
      content under its own tags, in ordinal order. */
  lemma StreamHolds(p: ProjectInputs, refs: seq<KeyedProject>)
    requires Encodable(p, refs)
    ensures Holds(Decode(Stream(p, refs)), p, OrderBy(PathKey, p.additional), OrderBy(PathKey, p.config),
                  OrderBy(ProjectPath, refs))
  {
    RecordsRoundTrip(Records(p, refs));
    var front := [Record(Ascii("csproj"), p.csproj), Record(Ascii("roslyn-detkey"), p.detKey)];
    FrontHolds(p, front);
    RecordsHold(p, OrderBy(PathKey, p.additional), OrderBy(PathKey, p.config), OrderBy(ProjectPath, refs), front,
                AddSection(p.additional), CfgSection(p.config), RefSection(refs));
  }

  lemma FrontHolds(p: ProjectInputs, front: seq<Record>)
    requires front == [Record(Ascii("csproj"), p.csproj), Record(Ascii("roslyn-detkey"), p.detKey)]
    ensures IsRecord(front[0], "csproj", p.csproj) && IsRecord(front[1], "roslyn-detkey", p.detKey)
  {
  }

  lemma RecordsHold(
    p: ProjectInputs, docs: seq<Document>, configs: seq<Document>, projects: seq<KeyedProject>,
    front: seq<Record>, a: seq<Record>, c: seq<Record>, r: seq<Record>)
    requires |front| == 2 && IsRecord(front[0], "csproj", p.csproj) && IsRecord(front[1], "roslyn-detkey", p.detKey)
    requires a == Section(Ascii("add-path"), Ascii("add-bytes"), PathKey, DocumentBytes, docs)
    requires c == Section(Ascii("cfg-path"), Ascii("cfg-bytes"), PathKey, DocumentBytes, configs)
    requires r == Section(Ascii("proj-ref-path"), Ascii("proj-ref-key"), ProjectPath, KeyBytes, projects)
    ensures Holds(front + (a + (c + r)), p, docs, configs, projects)
  {
    SectionLength(Ascii("add-path"), Ascii("add-bytes"), PathKey, DocumentBytes, docs);
    SectionLength(Ascii("cfg-path"), Ascii("cfg-bytes"), PathKey, DocumentBytes, configs);
    SectionLength(Ascii("proj-ref-path"), Ascii("proj-ref-key"), ProjectPath, KeyBytes, projects);
    AdditionalHold(front, docs, c + r);
    ConfigsHold(front, a, configs, r);
    ProjectsHold(front, a, c, projects);
    var rs := front + (a + (c + r));
    assert rs[0] == front[0] && rs[1] == front[1];
  }

  lemma AdditionalHold(front: seq<Record>, docs: seq<Document>, rest: seq<Record>)
    ensures var a := Section(Ascii("add-path"), Ascii("add-bytes"), PathKey, DocumentBytes, docs);
      Listed(front + (a + rest), |front|, "add-path", "add-bytes", Paths(docs), Texts(docs))
  {
    ItemsAreListed(front, PathKey, DocumentBytes, docs, rest, "add-path", "add-bytes", Paths(docs), Texts(docs));
  }

  lemma ConfigsHold(front: seq<Record>, a: seq<Record>, docs: seq<Document>, r: seq<Record>)
    ensures var c := Section(Ascii("cfg-path"), Ascii("cfg-bytes"), PathKey, DocumentBytes, docs);
      Listed(front + (a + (c + r)), |front| + |a|, "cfg-path", "cfg-bytes", Paths(docs), Texts(docs))
  {
    var c := Section(Ascii("cfg-path"), Ascii("cfg-bytes"), PathKey, DocumentBytes, docs);
    ItemsAreListed(front + a, PathKey, DocumentBytes, docs, r, "cfg-path", "cfg-bytes", Paths(docs), Texts(docs));
    Lists.Associate(front, a, c + r);
  }

  lemma ProjectsHold(front: seq<Record>, a: seq<Record>, c: seq<Record>, refs: seq<KeyedProject>)
    ensures var r := Section(Ascii("proj-ref-path"), Ascii("proj-ref-key"), ProjectPath, KeyBytes, refs);
      Listed(front + (a + (c + r)), |front| + |a| + |c|, "proj-ref-path", "proj-ref-key",
             ProjectPaths(refs), ProjectKeys(refs))
  {
    var r := Section(Ascii("proj-ref-path"), Ascii("proj-ref-key"), ProjectPath, KeyBytes, refs);
    ItemsAreListed(front + a + c, ProjectPath, KeyBytes, refs, [], "proj-ref-path", "proj-ref-key",
                   ProjectPaths(refs), ProjectKeys(refs));
    assert r + [] == r;
    Lists.Associate(front, a, c + r);
    Lists.Associate(front + a, c, r);
  }

  // ---- the stream determines the inputs ----

  /** A record list that does not start with this section's path tag. */
  ghost predicate StartsElsewhere(tag: seq<Byte>, rs: seq<Record>) {
    rs == [] || rs[0].tag != tag
  }

  lemma {:induction false} SectionRecovers<T(!new)>(
    pathTag: seq<Byte>, dataTag: seq<Byte>, key: T -> Path, data: T -> seq<Byte>,
    xs: seq<T>, ys: seq<T>, r: seq<Record>, s: seq<Record>)
    requires Section(pathTag, dataTag, key, data, xs) + r == Section(pathTag, dataTag, key, data, ys) + s
    requires StartsElsewhere(pathTag, r) && StartsElsewhere(pathTag, s)
    requires forall x, y :: key(x) == key(y) && data(x) == data(y) ==> x == y
    ensures xs == ys && r == s
    decreases |xs| + |ys|
  {
    if xs == [] && ys == [] {
      assert Section(pathTag, dataTag, key, data, xs) + r == r && Section(pathTag, dataTag, key, data, ys) + s == s;
    } else if xs == [] {
      SectionFront(pathTag, dataTag, key, data, ys, s);
      assert false;
    } else if ys == [] {
      SectionFront(pathTag, dataTag, key, data, xs, r);
      assert false;
    } else {
      SectionFront(pathTag, dataTag, key, data, xs, r);
      SectionFront(pathTag, dataTag, key, data, ys, s);
      Utf8Injective(key(xs[0]), key(ys[0]));
      SectionRecovers(pathTag, dataTag, key, data, xs[1..], ys[1..], r, s);
      assert xs == [xs[0]] + xs[1..] && ys == [ys[0]] + ys[1..];
    }
  }

  lemma SectionFront<T>(
    pathTag: seq<Byte>, dataTag: seq<Byte>, key: T -> Path, data: T -> seq<Byte>, xs: seq<T>, r: seq<Record>)
    requires xs != []
    ensures var whole := Section(pathTag, dataTag, key, data, xs) + r;
      && |whole| >= 2
      && whole[0] == Record(pathTag, Utf8(key(xs[0])))
      && whole[1] == Record(dataTag, data(xs[0]))
      && whole[2..] == Section(pathTag, dataTag, key, data, xs[1..]) + r
  {
    var path, content := Record(pathTag, Utf8(key(xs[0]))), Record(dataTag, data(xs[0]));
    var others := Section(pathTag, dataTag, key, data, xs[1..]);
    Lists.Associate([path, content], others, r);
    Lists.Cons2(path, content, others + r);
  }

  lemma Utf8Determines()
    ensures forall x, y :: PathKey(x) == PathKey(y) && DocumentBytes(x) == DocumentBytes(y) ==> x == y
  {
    forall x, y | PathKey(x) == PathKey(y) && DocumentBytes(x) == DocumentBytes(y) ensures x == y {
      Utf8Injective(x.text, y.text);
    }
  }

  lemma TagsDiffer()
    ensures Ascii("add-path")[0] == 97 && Ascii("cfg-path")[0] == 99 && Ascii("proj-ref-path")[0] == 112
  {
  }

  lemma RestStartsElsewhere(p: ProjectInputs, refs: seq<KeyedProject>)
    ensures StartsElsewhere(Ascii("add-path"), CfgSection(p.config) + RefSection(refs))
    ensures StartsElsewhere(Ascii("cfg-path"), RefSection(refs))
  {
    TagsDiffer();
  }

  lemma RecordsSplit(p: ProjectInputs, refs: seq<KeyedProject>)
    ensures var rs := Records(p, refs);
      && |rs| >= 2
      && rs[0].data == p.csproj && rs[1].data == p.detKey
      && rs[2..] == AddSection(p.additional) + (CfgSection(p.config) + RefSection(refs))
  {
  }

  lemma RecordsInjective(p: ProjectInputs, refs: seq<KeyedProject>, q: ProjectInputs, refs': seq<KeyedProject>)
    requires Records(p, refs) == Records(q, refs')
    ensures p.csproj == q.csproj && p.detKey == q.detKey
    ensures OrderBy(PathKey, p.additional) == OrderBy(PathKey, q.additional)
    ensures OrderBy(PathKey, p.config) == OrderBy(PathKey, q.config)
    ensures OrderBy(ProjectPath, refs) == OrderBy(ProjectPath, refs')
  {
    RecordsSplit(p, refs);
    RecordsSplit(q, refs');
    RestStartsElsewhere(p, refs);
    RestStartsElsewhere(q, refs');
    Utf8Determines();
    SectionRecovers(Ascii("add-path"), Ascii("add-bytes"), PathKey, DocumentBytes,
                    OrderBy(PathKey, p.additional), OrderBy(PathKey, q.additional),
                    CfgSection(p.config) + RefSection(refs), CfgSection(q.config) + RefSection(refs'));
    SectionRecovers(Ascii("cfg-path"), Ascii("cfg-bytes"), PathKey, DocumentBytes,
                    OrderBy(PathKey, p.config), OrderBy(PathKey, q.config), RefSection(refs), RefSection(refs'));
    assert RefSection(refs) == RefSection(refs) + [] && RefSection(refs') == RefSection(refs') + [];
    SectionRecovers(Ascii("proj-ref-path"), Ascii("proj-ref-key"), ProjectPath, KeyBytes,
                    OrderBy(ProjectPath, refs), OrderBy(ProjectPath, refs'), [], []);
  }

  /** Equal streams come from equal inputs, up to the sort applied to them. */
  lemma StreamInjective(p: ProjectInputs, refs: seq<KeyedProject>, q: ProjectInputs, refs': seq<KeyedProject>)
    requires Encodable(p, refs) && Encodable(q, refs')
    requires Stream(p, refs) == Stream(q, refs')
    ensures p.csproj == q.csproj && p.detKey == q.detKey
    ensures OrderBy(PathKey, p.additional) == OrderBy(PathKey, q.additional)
    ensures OrderBy(PathKey, p.config) == OrderBy(PathKey, q.config)
    ensures OrderBy(ProjectPath, refs) == OrderBy(ProjectPath, refs')
  {
    RecordsRoundTrip(Records(p, refs));
    RecordsRoundTrip(Records(q, refs'));
    RecordsInjective(p, refs, q, refs');
  }

  /** The stream does not depend on the order the closure walk lists projects in. */
  lemma StreamIgnoresOrder(p: ProjectInputs, refs: seq<KeyedProject>, refs': seq<KeyedProject>)
    requires multiset(refs) == multiset(refs') && DistinctBy(ProjectPath, refs)
    ensures Stream(p, refs) == Stream(p, refs')
  {
    OrderByForgetsOrder(ProjectPath, refs, refs');
  }

  // ---- the incremental hash and the loops that feed it ----

  class IncrementalHash {
    var data: seq<Byte>
    ghost var written: seq<Record>

    ghost predicate Valid()
      reads this
    {
      data == Encode(written)
    }

    constructor ()
      ensures Valid() && written == []
    {
      data, written := [], [];
    }

    method AppendData(bytes: seq<Byte>)
      modifies this`data
      ensures data == old(data) + bytes
    {
      data := data + bytes;
    }

    /** One record, as its four pieces. */
    method AppendBytes(tag: string, bytes: seq<Byte>)
      requires Valid()
      modifies this
      ensures Valid() && written == old(written) + [Record(Ascii(tag), bytes)]
    {
      var tagBytes := Ascii(tag);
      EncodeAppend(written, Record(tagBytes, bytes));
      AppendData(BigEndian(|tagBytes|, 4));
      AppendData(tagBytes);
      AppendData(BigEndian(|bytes|, 8));
      AppendData(bytes);
      written := written + [Record(tagBytes, bytes)];
    }

    method GetHashAndReset(sha: Sha) returns (key: Digest)
      requires Valid()
      modifies this
      ensures key == sha(Encode(old(written))) && Valid() && written == []
    {
      key := sha(data);
      data, written := [], [];
    }
  }

  lemma {:induction false} SectionAppend<T>(
    pathTag: seq<Byte>, dataTag: seq<Byte>, key: T -> Path, data: T -> seq<Byte>, xs: seq<T>, x: T)
    ensures Section(pathTag, dataTag, key, data, xs + [x])
         == Section(pathTag, dataTag, key, data, xs) + [Record(pathTag, Utf8(key(x)))] + [Record(dataTag, data(x))]
    decreases |xs|
  {
    if xs == [] {
      assert xs + [x] == [x] && [x][1..] == [];
    } else {
      SectionAppend(pathTag, dataTag, key, data, xs[1..], x);
      ConcatFront(xs, [x]);
    }
  }

  lemma TwoMore(start: seq<Record>, s: seq<Record>, a: Record, b: Record)
    ensures start + s + [a] + [b] == start + (s + [a] + [b])
  {
  }

  method AppendSection<T>(
    hash: IncrementalHash, pathTag: string, dataTag: string, key: T -> Path, data: T -> seq<Byte>, items: seq<T>)
    requires hash.Valid()
    modifies hash
    ensures hash.Valid()
    ensures hash.written == old(hash.written) + Section(Ascii(pathTag), Ascii(dataTag), key, data, OrderBy(key, items))
  {
    var sorted := OrderBy(key, items);
    ghost var start := hash.written;
    var i := 0;
    while i < |sorted|
      invariant 0 <= i <= |sorted|
      invariant hash.Valid()
      invariant hash.written == start + Section(Ascii(pathTag), Ascii(dataTag), key, data, sorted[..i])
    {
      SectionAppend(Ascii(pathTag), Ascii(dataTag), key, data, sorted[..i], sorted[i]);
      Lists.Snoc(sorted, i);
      TwoMore(start, Section(Ascii(pathTag), Ascii(dataTag), key, data, sorted[..i]),
              Record(Ascii(pathTag), Utf8(key(sorted[i]))), Record(Ascii(dataTag), data(sorted[i])));
      hash.AppendBytes(pathTag, Utf8(key(sorted[i])));
      hash.AppendBytes(dataTag, data(sorted[i]));
      i := i + 1;
    }
    assert sorted[..i] == sorted;
  }

  lemma RecordsInPieces(p: ProjectInputs, refs: seq<KeyedProject>)
    ensures Records(p, refs)
         == [] + [Record(Ascii("csproj"), p.csproj)] + [Record(Ascii("roslyn-detkey"), p.detKey)]
            + AddSection(p.additional) + CfgSection(p.config) + RefSection(refs)
  {
    var csproj, detKey := Record(Ascii("csproj"), p.csproj), Record(Ascii("roslyn-detkey"), p.detKey);
    assert [] + [csproj] + [detKey] == [csproj, detKey];
    Lists.Associate([csproj, detKey], AddSection(p.additional), CfgSection(p.config));
    Lists.Associate([csproj, detKey], AddSection(p.additional) + CfgSection(p.config), RefSection(refs));
    Lists.Associate(AddSection(p.additional), CfgSection(p.config), RefSection(refs));
  }

  method ComputeKey(p: ProjectInputs, transitiveProjectKeys: seq<KeyedProject>, sha: Sha) returns (key: Digest)
    ensures key == sha(Stream(p, transitiveProjectKeys))
  {
    var hash := new IncrementalHash();
    hash.AppendBytes("csproj", p.csproj);
    hash.AppendBytes("roslyn-detkey", p.detKey);
    AppendSection(hash, "add-path", "add-bytes", PathKey, DocumentBytes, p.additional);
    AppendSection(hash, "cfg-path", "cfg-bytes", PathKey, DocumentBytes, p.config);
    AppendSection(hash, "proj-ref-path", "proj-ref-key", ProjectPath, KeyBytes, transitiveProjectKeys);
    RecordsInPieces(p, transitiveProjectKeys);
    key := hash.GetHashAndReset(sha);
  }
}
