/** The names a user writes: cell paths folded into identities (sdk/myrmic-common/src/cells/naming.rs)
    and the selectors of replication entries (swarm/cell-protocol/src/replication.rs). */
module Selectors {
  import opened Basics
  import opened Text

  datatype Result<T, E> = Ok(value: T) | Err(error: E)

  datatype NameError = EmptySegment | BadStart | InvalidChar

  /** The name-based UUID of a name within a namespace. */
  type Derive = (Uuid, string) -> Uuid

  predicate LowerOrDigit(c: char) {
    'a' <= c <= 'z' || '0' <= c <= '9'
  }

  /** Why a segment is refused, if it is. */
  function CheckSegment(segment: string): Option<NameError> {
    if segment == [] then Some(EmptySegment)
    else if !LowerOrDigit(segment[0]) then Some(BadStart)
    else if exists i :: 1 <= i < |segment| && !LowerOrDigit(segment[i]) && segment[i] !in "._-" then Some(InvalidChar)
    else None
  }

  function ChildSri(derive: Derive, parent: Uuid, name: string): Result<Uuid, NameError> {
    var refusal := CheckSegment(name);
    if refusal.Some? then Err(refusal.value) else Ok(derive(parent, name))
  }

  /** A path's identity under a namespace, segment by segment. */
  function Fold(derive: Derive, from: Uuid, segments: seq<string>): Result<Uuid, NameError> {
    if segments == [] then Ok(from)
    else
      var parent := Fold(derive, from, segments[..|segments| - 1]);
      if parent.Err? then parent else ChildSri(derive, parent.value, segments[|segments| - 1])
  }

  /** Folds a path into an identity, stopping at the first segment refused. */
  method SriOfPath(derive: Derive, root: Uuid, path: string) returns (r: Result<Uuid, NameError>)
    ensures r == Fold(derive, root, Split(path))
  {
    var segments := Split(path);
    var cur := root;
    for i := 0 to |segments|
      invariant Fold(derive, root, segments[..i]) == Ok(cur)
    {
      assert segments[..i + 1][..i] == segments[..i];
      var child := ChildSri(derive, cur, segments[i]);
      if child.Err? {
        FoldStops(derive, root, segments, i + 1);
        return child;
      }
      cur := child.value;
    }
    assert segments[..|segments|] == segments;
    r := Ok(cur);
  }

  lemma {:induction false} FoldStops(derive: Derive, root: Uuid, segments: seq<string>, n: nat)
    requires n <= |segments| && Fold(derive, root, segments[..n]).Err?
    ensures Fold(derive, root, segments) == Fold(derive, root, segments[..n])
  {
    if n == |segments| {
      assert segments[..n] == segments;
    } else {
      assert segments[..|segments| - 1][..n] == segments[..n];
      FoldStops(derive, root, segments[..|segments| - 1], n);
    }
  }

  lemma {:induction false} SplitExtends(path: string, name: string)
    requires SlashFree(name)
    ensures Split(path + "/" + name) == Split(path) + [name]
    decreases |path|
  {
    SplitMeans(path);
    SplitOne(name);
    var parts := SplitOnce(path);
    if parts.None? {
      SplitFirst(path, name);
    } else {
      SplitExtends(parts.value.1, name);
      assert path + "/" + name == parts.value.0 + "/" + (parts.value.1 + "/" + name);
      SplitFirst(parts.value.0, parts.value.1 + "/" + name);
    }
  }

  /** The tree of names is the tree of spawns: a cell's identity as its parent's child is its identity by
      full path. */
  lemma ChildIsPath(derive: Derive, root: Uuid, path: string, name: string)
    requires SlashFree(name) && Fold(derive, root, Split(path)).Ok?
    ensures Fold(derive, root, Split(path + "/" + name))
            == ChildSri(derive, Fold(derive, root, Split(path)).value, name)
  {
    SplitExtends(path, name);
    assert (Split(path) + [name])[..|Split(path)|] == Split(path);
  }

  /** A segment as users may write it: lower-case letters, digits, dots, underscores and hyphens, with a letter
      or a digit in front. */
  ghost predicate ValidSegment(s: string) {
    && s != [] && s[0] !in "._-"
    && forall i :: 0 <= i < |s| ==> 'a' <= s[i] <= 'z' || '0' <= s[i] <= '9' || s[i] in "._-"
  }

  lemma CheckedIffValid(segment: string)
    ensures CheckSegment(segment).None? <==> ValidSegment(segment)
  {
  }

  /** Why a segment that is not valid is refused: it is empty, it starts badly, or what follows is at fault. */
  predicate Refuses(segment: string, error: NameError) {
    match error
    case EmptySegment => segment == []
    case BadStart => segment != [] && !LowerOrDigit(segment[0])
    case InvalidChar => segment != [] && LowerOrDigit(segment[0])
  }

  lemma {:induction false} FoldIff(derive: Derive, root: Uuid, segments: seq<string>)
    ensures Fold(derive, root, segments).Ok? <==> forall i :: 0 <= i < |segments| ==> ValidSegment(segments[i])
  {
    if segments != [] {
      FoldIff(derive, root, segments[..|segments| - 1]);
      CheckedIffValid(segments[|segments| - 1]);
    }
  }

  lemma {:induction false} FoldRefusal(derive: Derive, root: Uuid, segments: seq<string>) returns (i: nat)
    requires Fold(derive, root, segments).Err?
    ensures i < |segments| && !ValidSegment(segments[i]) && forall j :: 0 <= j < i ==> ValidSegment(segments[j])
    ensures Refuses(segments[i], Fold(derive, root, segments).error)
  {
    var init := segments[..|segments| - 1];
    FoldIff(derive, root, init);
    if Fold(derive, root, init).Err? {
      i := FoldRefusal(derive, root, init);
    } else {
      i := |init|;
      CheckedIffValid(segments[i]);
    }
  }

  /** A path has an identity exactly when all its segments are valid; what it is refused for is the first that
      is not. */
  lemma PathAccepted(derive: Derive, root: Uuid, path: string)
    ensures Fold(derive, root, Split(path)).Ok? <==> forall i :: 0 <= i < |Split(path)| ==> ValidSegment(Split(path)[i])
    ensures Fold(derive, root, Split(path)).Err? ==>
              exists i :: 0 <= i < |Split(path)| && !ValidSegment(Split(path)[i])
                && (forall j :: 0 <= j < i ==> ValidSegment(Split(path)[j]))
                && Refuses(Split(path)[i], Fold(derive, root, Split(path)).error)
  {
    FoldIff(derive, root, Split(path));
    if Fold(derive, root, Split(path)).Err? {
      var i := FoldRefusal(derive, root, Split(path));
    }
  }

  datatype Subject =
    | Namespace(namespace: string)
    | Database(namespace: string, database: string)
    | Scope(namespace: string, database: string, schema: string)

  datatype Selector = App(name: string) | Cell(sri: Uuid) | Hierarchy(subject: Subject)

  datatype SelectorError = Empty | EmptyApp | BadScope | BadName(error: NameError)

  const APP_PREFIX := "app:"
  const SCOPE_PREFIX := "scope:"

  /** A slice of the hierarchy: one, two or three non-empty segments. */
  function ParseSubject(s: string): Result<Subject, SelectorError> {
    var segments := Split(s);
    if |segments| > 3 || segments[0] == [] then Err(BadScope)
    else if |segments| == 1 then Ok(Namespace(segments[0]))
    else if |segments| == 2 && segments[1] != [] then Ok(Database(segments[0], segments[1]))
    else if |segments| == 3 && segments[1] != [] && segments[2] != []
      then Ok(Scope(segments[0], segments[1], segments[2]))
    else Err(BadScope)
  }

  /** A UUID is taken as it stands, anything else as a path. */
  function ParseTarget(derive: Derive, root: Uuid, s: string): Result<Uuid, NameError> {
    var uuid := ParseUuid(s);
    if uuid.Some? then Ok(uuid.value) else Fold(derive, root, Split(s))
  }

  function Parse(derive: Derive, root: Uuid, s: string): Result<Selector, SelectorError> {
    if s == [] then Err(Empty)
    else if APP_PREFIX <= s then
      if s[4..] == [] then Err(EmptyApp) else Ok(App(s[4..]))
    else if SCOPE_PREFIX <= s then
      var subject := ParseSubject(s[6..]);
      if subject.Err? then Err(subject.error) else Ok(Hierarchy(subject.value))
    else
      var sri := ParseTarget(derive, root, s);
      if sri.Err? then Err(BadName(sri.error)) else Ok(Cell(sri.value))
  }

  function PrintSubject(subject: Subject): string {
    match subject
    case Namespace(ns) => ns
    case Database(ns, db) => ns + "/" + db
    case Scope(ns, db, schema) => ns + "/" + (db + "/" + schema)
  }

  /** The canonical form, which is the entry's key. */
  function Print(selector: Selector): string {
    match selector
    case App(name) => APP_PREFIX + name
    case Cell(sri) => UuidText(sri)
    case Hierarchy(subject) => SCOPE_PREFIX + PrintSubject(subject)
  }

  predicate IsSegment(s: string) {
    s != [] && '/' !in s
  }

  predicate WellFormed(selector: Selector) {
    match selector
    case App(name) => name != []
    case Cell(_) => true
    case Hierarchy(Namespace(ns)) => IsSegment(ns)
    case Hierarchy(Database(ns, db)) => IsSegment(ns) && IsSegment(db)
    case Hierarchy(Scope(ns, db, schema)) => IsSegment(ns) && IsSegment(db) && IsSegment(schema)
  }

  lemma SubjectRoundTrip(subject: Subject)
    requires WellFormed(Hierarchy(subject))
    ensures ParseSubject(PrintSubject(subject)) == Ok(subject)
  {
    match subject
    case Namespace(ns) => SplitOne(ns);
    case Database(ns, db) =>
      SplitOne(db);
      SplitFirst(ns, db);
    case Scope(ns, db, schema) =>
      SplitOne(schema);
      SplitFirst(db, schema);
      SplitFirst(ns, db + "/" + schema);
  }

  /** A printed UUID is mistaken for neither prefixed form. */
  lemma UuidHasNoPrefix(u: Uuid)
    ensures !(APP_PREFIX <= UuidText(u)) && !(SCOPE_PREFIX <= UuidText(u))
  {
    UuidClean(u, 3);
    UuidClean(u, 5);
  }

  lemma StripApp(name: string)
    ensures APP_PREFIX <= APP_PREFIX + name && (APP_PREFIX + name)[4..] == name
  {
  }

  lemma StripScope(rest: string)
    ensures !(APP_PREFIX <= SCOPE_PREFIX + rest) && SCOPE_PREFIX <= SCOPE_PREFIX + rest
            && (SCOPE_PREFIX + rest)[6..] == rest
  {
    assert (SCOPE_PREFIX + rest)[0] == 's';
  }

  /** Every well-formed selector survives print then parse. */
  lemma PrintParses(derive: Derive, root: Uuid, selector: Selector)
    requires WellFormed(selector)
    ensures Parse(derive, root, Print(selector)) == Ok(selector)
  {
    match selector
    case App(name) => StripApp(name);
    case Cell(sri) =>
      UuidHasNoPrefix(sri);
      UuidRoundTrip(sri);
    case Hierarchy(subject) =>
      StripScope(PrintSubject(subject));
      SubjectRoundTrip(subject);
  }

  /** Only well-formed selectors come out of parsing. */
  lemma ParsedWellFormed(derive: Derive, root: Uuid, s: string)
    requires Parse(derive, root, s).Ok?
    ensures WellFormed(Parse(derive, root, s).value)
  {
    if !(APP_PREFIX <= s) && SCOPE_PREFIX <= s {
      SplitSegments(s[6..]);
    }
  }

  /** Every string that parses prints to a canonical form that parses to the same selector. */
  lemma CanonicalStays(derive: Derive, root: Uuid, s: string)
    requires Parse(derive, root, s).Ok?
    ensures Parse(derive, root, Print(Parse(derive, root, s).value)) == Parse(derive, root, s)
  {
    ParsedWellFormed(derive, root, s);
    PrintParses(derive, root, Parse(derive, root, s).value);
  }

  /** A selector survives print then parse exactly when it is well-formed. */
  lemma RoundTripsIff(derive: Derive, root: Uuid, selector: Selector)
    ensures Parse(derive, root, Print(selector)) == Ok(selector) <==> WellFormed(selector)
  {
    if WellFormed(selector) {
      PrintParses(derive, root, selector);
    } else if Parse(derive, root, Print(selector)) == Ok(selector) {
      ParsedWellFormed(derive, root, Print(selector));
    }
  }

  /** Keys identify well-formed selectors. */
  lemma KeysIdentify(derive: Derive, root: Uuid, a: Selector, b: Selector)
    requires WellFormed(a) && WellFormed(b) && Print(a) == Print(b)
    ensures a == b
  {
    PrintParses(derive, root, a);
    PrintParses(derive, root, b);
  }

  lemma ValidHasNoPrefix(s: string)
    requires ValidSegment(s)
    ensures SlashFree(s) && !(APP_PREFIX <= s) && !(SCOPE_PREFIX <= s)
  {
    assert |s| > 3 ==> s[3] != ':';
    assert |s| > 5 ==> s[5] != ':';
  }

  /** A bare name selects the root's child of that name. */
  lemma NameSelects(derive: Derive, root: Uuid, name: string)
    requires ValidSegment(name) && ParseUuid(name).None?
    ensures Parse(derive, root, name) == Ok(Cell(derive(root, name)))
  {
    ValidHasNoPrefix(name);
    CheckedIffValid(name);
    SplitOne(name);
    assert Fold(derive, root, [name][..0]) == Ok(root);
    assert Fold(derive, root, [name]) == ChildSri(derive, root, name);
  }

  lemma LongerHasNoPrefix(path: string, rest: string)
    requires !(APP_PREFIX <= path) && !(SCOPE_PREFIX <= path)
    ensures !(APP_PREFIX <= path + "/" + rest) && !(SCOPE_PREFIX <= path + "/" + rest)
  {
    var s := path + "/" + rest;
    if |path| < 4 {
      assert s[|path|] == '/';
    }
    if |path| < 6 {
      assert s[|path|] == '/';
    }
  }

  /** A path selects by descent: if it selects a cell, one more segment selects that cell's child, or is what
      the longer path is refused for. A UUID is not a path, and does not start one. */
  lemma PathSelects(derive: Derive, root: Uuid, path: string, name: string, parent: Uuid)
    requires SlashFree(name) && ParseUuid(path).None? && Parse(derive, root, path) == Ok(Cell(parent))
    ensures ValidSegment(name) ==> Parse(derive, root, path + "/" + name) == Ok(Cell(derive(parent, name)))
    ensures !ValidSegment(name) ==>
              var r := Parse(derive, root, path + "/" + name);
              r.Err? && r.error.BadName? && Refuses(name, r.error.error)
  {
    var longer := path + "/" + name;
    LongerHasNoPrefix(path, name);
    assert longer[|path|] == '/';
    if ParseUuid(longer).Some? {
      UuidSlashFree(longer);
    }
    ChildIsPath(derive, root, path, name);
    CheckedIffValid(name);
  }

  /** Applications are selected by their prefix and a name, and by nothing else. */
  lemma AppExact(derive: Derive, root: Uuid, s: string, name: string)
    ensures Parse(derive, root, s) == Ok(App(name)) <==> name != [] && s == "app:" + name
  {
    StripApp(name);
    if Parse(derive, root, s) == Ok(App(name)) {
      assert s == s[..4] + s[4..];
    }
  }

  lemma SplitHead(s: string) returns (rest: string)
    ensures |Split(s)| == 1 ==> s == Split(s)[0]
    ensures |Split(s)| > 1 ==> s == Split(s)[0] + "/" + rest && Split(rest) == Split(s)[1..]
  {
    SplitMeans(s);
    rest := if SplitOnce(s).Some? then SplitOnce(s).value.1 else [];
  }

  lemma SplitJoins(s: string)
    ensures var p := Split(s);
            && (|p| == 1 ==> s == p[0]) && (|p| == 2 ==> s == p[0] + "/" + p[1])
            && (|p| == 3 ==> s == p[0] + "/" + (p[1] + "/" + p[2]))
  {
    var rest := SplitHead(s);
    var last := SplitHead(rest);
    var end := SplitHead(last);
  }

  lemma SubjectExact(s: string, subject: Subject)
    ensures ParseSubject(s) == Ok(subject) <==> WellFormed(Hierarchy(subject)) && s == PrintSubject(subject)
  {
    if ParseSubject(s) == Ok(subject) {
      SplitJoins(s);
      SplitSegments(s);
    } else if WellFormed(Hierarchy(subject)) {
      SubjectRoundTrip(subject);
    }
  }

  /** A slice of the hierarchy is selected by its prefix and its non-empty segments, and by nothing else. */
  lemma ScopeExact(derive: Derive, root: Uuid, s: string, subject: Subject)
    ensures Parse(derive, root, s) == Ok(Hierarchy(subject))
            <==> WellFormed(Hierarchy(subject)) && s == "scope:" + PrintSubject(subject)
  {
    StripScope(PrintSubject(subject));
    SubjectExact(PrintSubject(subject), subject);
    if Parse(derive, root, s) == Ok(Hierarchy(subject)) {
      SubjectExact(s[6..], subject);
      assert s == s[..6] + s[6..];
    }
  }

  /** What a refusal says: which form was meant, and for a path, that it is one and what is wrong with it. */
  lemma RefusalMeans(derive: Derive, root: Uuid, s: string)
    requires Parse(derive, root, s).Err?
    ensures var e := Parse(derive, root, s).error;
            && (e.Empty? <==> s == "") && (e.EmptyApp? <==> s == "app:")
            && (e.BadScope? <==> "scope:" <= s)
            && (e.BadName? ==> ParseUuid(s).None? && Fold(derive, root, Split(s)) == Err(e.error))
  {
    if APP_PREFIX <= s {
      assert s == s[..4] + s[4..];
      StripScope([]);
      assert !(SCOPE_PREFIX <= s) by { assert s[0] == 'a'; }
    }
    StripApp([]);
  }
}
