/** Target addresses: parsing, checking and printing
    (src/python/pants/build_graph/address.py). */
module Addresses {
  import opened Wrappers

  datatype Address = Address(path: string, name: string)

  datatype Parsed = Ok(address: Address) | InvalidSpecPath | InvalidTargetName

  // ---- Strings --------------------------------------------------------------------------

  predicate StartsWith(s: string, prefix: string) {
    prefix <= s
  }

  function StripPrefix(s: string, prefix: string): string {
    if StartsWith(s, prefix) then s[|prefix|..] else s
  }

  /** The position of the last `c`, or -1. */
  function LastIndex(s: string, c: char): (i: int)
    ensures -1 <= i < |s|
    ensures i >= 0 ==> s[i] == c && c !in s[i + 1..]
    ensures i < 0 ==> c !in s
  {
    if s == [] then -1
    else if s[|s| - 1] == c then |s| - 1
    else
      var i := LastIndex(s[..|s| - 1], c);
      assert s == s[..|s| - 1] + [s[|s| - 1]];
      assert i >= 0 ==> s[i + 1..] == s[..|s| - 1][i + 1..] + [s[|s| - 1]];
      i
  }

  /** The part of a path after its last slash. */
  function BaseName(path: string): string {
    path[LastIndex(path, '/') + 1..]
  }

  /** The parts of `s` between slashes. */
  function Split(s: string): (r: seq<string>)
    ensures |r| > 0 && forall c :: c in r ==> '/' !in c
  {
    var i := LastIndex(s, '/');
    if i < 0 then [s] else Split(s[..i]) + [s[i + 1..]]
  }

  function Join(parts: seq<string>): string {
    if parts == [] then ""
    else if |parts| == 1 then parts[0]
    else Join(parts[..|parts| - 1]) + "/" + parts[|parts| - 1]
  }

  lemma JoinSnoc(parts: seq<string>, last: string)
    requires parts != []
    ensures Join(parts + [last]) == Join(parts) + "/" + last
  {
    assert (parts + [last])[..|parts|] == parts;
  }

  lemma CutAround(s: string, i: nat)
    requires i < |s|
    ensures s == s[..i] + [s[i]] + s[i + 1..]
  {
  }

  lemma {:induction false} JoinSplit(s: string)
    ensures Join(Split(s)) == s
    decreases |s|
  {
    var i := LastIndex(s, '/');
    if i >= 0 {
      JoinSplit(s[..i]);
      JoinSnoc(Split(s[..i]), s[i + 1..]);
      CutAround(s, i);
    }
  }

  lemma SliceAround(a: string, c: char, b: string)
    ensures (a + [c] + b)[..|a|] == a && (a + [c] + b)[|a| + 1..] == b
  {
  }

  lemma {:induction false} LastIndexAfter(s: string, c: char, k: nat)
    requires k < |s| && s[k] == c
    ensures LastIndex(s, c) >= k
  {
    if s[|s| - 1] != c {
      LastIndexAfter(s[..|s| - 1], c, k);
    }
  }

  lemma {:induction false} LastIndexUnique(a: string, c: char, b: string)
    requires c !in b
    ensures LastIndex(a + [c] + b, c) == |a|
  {
    var s := a + [c] + b;
    if b != [] {
      assert s[|s| - 1] == b[|b| - 1];
      assert s[..|s| - 1] == a + [c] + b[..|b| - 1];
      LastIndexUnique(a, c, b[..|b| - 1]);
    }
  }

  lemma SplitSnoc(a: string, b: string)
    requires '/' !in b
    ensures Split(a + "/" + b) == Split(a) + [b]
  {
    var s := a + "/" + b;
    LastIndexUnique(a, '/', b);
    SliceAround(a, '/', b);
  }

  lemma SplitPlain(s: string)
    requires '/' !in s
    ensures Split(s) == [s]
  {
  }

  lemma {:induction false} SplitJoin(parts: seq<string>)
    requires |parts| > 0 && forall c :: c in parts ==> '/' !in c
    ensures Split(Join(parts)) == parts
  {
    var front, last := parts[..|parts| - 1], parts[|parts| - 1];
    assert last in parts && parts == front + [last];
    if front == [] {
      SplitPlain(last);
    } else {
      SplitJoin(front);
      JoinSnoc(front, last);
      SplitSnoc(Join(front), last);
    }
  }

  // ---- Path normalization -----------------------------------------------------------------

  /** The component loop of `os.path.normpath`. */
  function NormParts(rooted: bool, parts: seq<string>, done: seq<string>): seq<string>
    decreases |parts|
  {
    if parts == [] then done
    else
      var c := parts[0];
      NormParts(rooted, parts[1..],
        if c == "" || c == "." then done
        else if c != ".." || (!rooted && done == []) || (done != [] && done[|done| - 1] == "..") then done + [c]
        else if done != [] then done[..|done| - 1]
        else done)
  }

  function NormPath(path: string): string {
    if path == "" then "." else
      var slashes := if !StartsWith(path, "/") then ""
                     else if StartsWith(path, "//") && !StartsWith(path, "///") then "//" else "/";
      var p := slashes + Join(NormParts(slashes != "", Split(path), []));
      if p == "" then "." else p
  }

  // ---- Checking ---------------------------------------------------------------------------

  /** `sanitize_path` accepts the path. */
  predicate SanePath(path: string) {
    path == "" ||
    var norm := NormPath(path);
    var parts := Split(norm);
    && parts[0] != "." && parts[0] != ".." && norm == path
    && !StartsWith(parts[|parts| - 1], "BUILD")
    && !StartsWith(path, "/")
  }

  predicate SaneName(name: string) {
    name != "" && '@' !in name
  }

  predicate Valid(a: Address) {
    SanePath(a.path) && SaneName(a.name)
  }

  /** The constructor. */
  function Make(path: string, name: string): Parsed {
    if !SanePath(path) then InvalidSpecPath
    else if !SaneName(name) then InvalidTargetName
    else Ok(Address(path, name))
  }

  /** A component that normalization leaves alone. */
  predicate PlainPart(c: string) {
    c != "" && c != "." && c != ".."
  }

  lemma {:induction false} PlainPartsStay(parts: seq<string>, done: seq<string>)
    requires forall c :: c in parts ==> PlainPart(c)
    ensures NormParts(false, parts, done) == done + parts
    decreases |parts|
  {
    if parts != [] {
      assert PlainPart(parts[0]);
      PlainPartsStay(parts[1..], done + [parts[0]]);
      assert done + [parts[0]] + parts[1..] == done + parts;
    }
  }

  /** Normalized relative components: some "..", then plain ones. */
  predicate Normal(parts: seq<string>) {
    forall i | 0 <= i < |parts| ::
      parts[i] != "" && parts[i] != "." && '/' !in parts[i] && (parts[i] == ".." ==> parts[0] == "..")
  }

  lemma {:induction false} NormPartsNormal(parts: seq<string>, done: seq<string>)
    requires Normal(done) && forall c :: c in parts ==> '/' !in c
    ensures Normal(NormParts(false, parts, done))
    decreases |parts|
  {
    if parts != [] {
      var c := parts[0];
      var done' := if c == "" || c == "." then done
                   else if c != ".." || done == [] || done[|done| - 1] == ".." then done + [c]
                   else done[..|done| - 1];
      NormPartsNormal(parts[1..], done');
    }
  }

  lemma {:induction false} SlashFirst(path: string)
    ensures StartsWith(path, "/") ==> Split(path)[0] == ""
    decreases |path|
  {
    var i := LastIndex(path, '/');
    if StartsWith(path, "/") {
      LastIndexAfter(path, '/', 0);
      if i > 0 {
        assert StartsWith(path[..i], "/");
        SlashFirst(path[..i]);
      } else {
        assert Split(path[..0]) == [""];
      }
    }
  }

  lemma PlainIsNormal(path: string)
    requires path != "" && forall c :: c in Split(path) ==> PlainPart(c)
    ensures NormPath(path) == path && PlainPart(Split(path)[0]) && !StartsWith(path, "/")
  {
    var parts := Split(path);
    assert parts[0] in parts;
    JoinSplit(path);
    SlashFirst(path);
    PlainPartsStay(parts, []);
    assert [] + parts == parts;
  }

  lemma DotSplit()
    ensures Split(".") == ["."]
  {
  }

  lemma NormalWhenSane(path: string)
    requires path != "" && SanePath(path)
    ensures forall c :: c in Split(path) ==> PlainPart(c)
  {
    var normal := NormParts(false, Split(path), []);
    NormPartsNormal(Split(path), []);
    if normal == [] {
      assert path == ".";
      DotSplit();
    } else {
      SplitJoin(normal);
      assert path == Join(normal);
      assert Split(path) == normal;
    }
  }

  /** What `sanitize_path` accepts, without reference to normalization: the root, or
      components that are neither empty, "." nor "..", the last not starting with BUILD. */
  lemma SanePathExact(path: string)
    ensures SanePath(path) <==>
              path == "" ||
              ((forall c :: c in Split(path) ==> PlainPart(c)) && !StartsWith(Split(path)[|Split(path)| - 1], "BUILD"))
  {
    if path != "" && forall c :: c in Split(path) ==> PlainPart(c) {
      PlainIsNormal(path);
    } else if path != "" && SanePath(path) {
      NormalWhenSane(path);
    }
  }

  // ---- Parsing and printing ---------------------------------------------------------------

  /** `parse_spec`, without subproject roots. */
  function ParseSpec(spec: string, relativeTo: string): (string, string) {
    var i := LastIndex(spec, ':');
    if i < 0 then
      var path := StripPrefix(spec, "//");
      (path, BaseName(path))
    else
      var path := if i == 0 && relativeTo != "" then relativeTo else spec[..i];
      (StripPrefix(path, "//"), spec[i + 1..])
  }

  function Parse(spec: string, relativeTo: string): Parsed {
    var (path, name) := ParseSpec(spec, relativeTo);
    Make(path, name)
  }

  function Spec(a: Address): string {
    (if a.path == "" then "//" else a.path) + ":" + a.name
  }

  function RelativeSpec(a: Address): string {
    ":" + a.name
  }

  function Reference(a: Address, from: Option<string>): string {
    if from == Some(a.path) then RelativeSpec(a)
    else if BaseName(a.path) != a.name then Spec(a)
    else a.path
  }

  /** A spec splits at its last colon. */
  lemma SpecColon(path: string, name: string)
    requires ':' !in name
    ensures LastIndex(path + ":" + name, ':') == |path|
    ensures (path + ":" + name)[..|path|] == path && (path + ":" + name)[|path| + 1..] == name
  {
    LastIndexUnique(path, ':', name);
    SliceAround(path, ':', name);
  }

  lemma ColonInName(path: string, name: string, relativeTo: string)
    requires ':' in name
    ensures ParseSpec(path + ":" + name, relativeTo).1 != name
  {
    var s := path + ":" + name;
    var k :| 0 <= k < |name| && name[k] == ':';
    assert s[|path| + 1 + k] == ':';
    LastIndexAfter(s, ':', |path| + 1 + k);
  }

  /** The text after the last colon is not the text after the last slash. */
  lemma ColonOrSlash(path: string)
    requires ':' in path
    ensures path[LastIndex(path, ':') + 1..] != BaseName(path)
  {
    var i, j := LastIndex(path, ':'), LastIndex(path, '/');
    assert i != j;
    assert |path[i + 1..]| != |path[j + 1..]|;
  }

  /** `text`, taken apart at `from`, gives the parts of the address. */
  ghost predicate Gives(text: string, from: string, a: Address) {
    ParseSpec(text, from) == (a.path, a.name)
  }

  lemma NotDoubleSlash(a: Address)
    requires Valid(a)
    ensures !StartsWith(a.path, "//")
  {
    assert StartsWith(a.path, "//") ==> StartsWith(a.path, "/");
  }

  /** `text`, read at `from`, is the address. */
  ghost predicate ReadsAs(text: string, from: string, a: Address) {
    Parse(text, from) == Ok(a)
  }

  /** Text is read as a valid address exactly when it is taken apart into its two parts. */
  lemma ReadAs(a: Address, text: string, from: string)
    requires Valid(a)
    ensures ReadsAs(text, from, a) <==> Gives(text, from, a)
  {
  }

  /** Text before the last colon is the path, less two leading slashes. */
  lemma ColonParts(path: string, a: Address, from: string)
    requires path == "//" + a.path || (path == a.path != "" && !StartsWith(path, "//"))
    ensures Gives(path + ":" + a.name, from, a) <==> ':' !in a.name
  {
    if ':' in a.name {
      ColonInName(path, a.name, from);
    } else {
      SpecColon(path, a.name);
      assert StripPrefix(path, "//") == a.path;
    }
  }

  /** What becomes of any text with a path and a name. */
  lemma ParseColon(path: string, name: string, from: string)
    requires path != "" && !StartsWith(path, "//") && ':' !in name
    ensures Parse(path + ":" + name, from) ==
              if !SanePath(path) then InvalidSpecPath
              else if name == "" || '@' in name then InvalidTargetName
              else Ok(Address(path, name))
  {
    ColonParts(path, Address(path, name), from);
  }

  lemma CanonicalParts(a: Address, from: string)
    requires !StartsWith(a.path, "//")
    ensures Gives(Spec(a), from, a) <==> ':' !in a.name
  {
    assert "//" + "" == "//";
    ColonParts(if a.path == "" then "//" else a.path, a, from);
  }

  lemma RelativeParts(a: Address)
    requires !StartsWith(a.path, "//")
    ensures Gives(RelativeSpec(a), a.path, a) <==> ':' !in a.name
  {
    assert RelativeSpec(a) == "" + ":" + a.name;
    if ':' in a.name {
      ColonInName("", a.name, a.path);
    } else {
      SpecColon("", a.name);
    }
  }

  /** Text without a colon is a path. */
  lemma WithoutColon(path: string, from: string)
    requires ':' !in path && !StartsWith(path, "//")
    ensures ParseSpec(path, from) == (path, BaseName(path))
  {
  }

  lemma BareName(path: string)
    ensures BaseName("//" + path) == BaseName(path)
  {
    var i := LastIndex(path, '/');
    var text := "//" + path;
    if i < 0 {
      assert text == "/" + "/" + path;
      LastIndexUnique("/", '/', path);
      SliceAround("/", '/', path);
    } else {
      CutAround(path, i);
      assert text == "//" + path[..i] + "/" + path[i + 1..];
      LastIndexUnique("//" + path[..i], '/', path[i + 1..]);
      SliceAround("//" + path[..i], '/', path[i + 1..]);
    }
  }

  lemma BareMisreads(text: string, from: string, a: Address)
    requires ':' in text && (text == a.path || text == "//" + a.path) && BaseName(a.path) == a.name
    ensures !Gives(text, from, a)
  {
    BareName(a.path);
    ColonOrSlash(text);
    assert ParseSpec(text, from).1 == text[LastIndex(text, ':') + 1..];
  }

  /** Reading a valid address's canonical form gives the address back, relative to any path,
      exactly when its name has no colon. */
  lemma SpecRoundTrip(a: Address, relativeTo: string)
    requires Valid(a)
    ensures ReadsAs(Spec(a), relativeTo, a) <==> ':' !in a.name
  {
    NotDoubleSlash(a);
    CanonicalParts(a, relativeTo);
    ReadAs(a, Spec(a), relativeTo);
  }

  /** It is absolute exactly for targets at the root. */
  lemma SpecAbsolute(a: Address)
    requires Valid(a)
    ensures StartsWith(Spec(a), "/") <==> a.path == ""
  {
    if a.path != "" {
      assert Spec(a)[0] == a.path[0];
    }
  }

  lemma BarePath(a: Address, from: string)
    requires Valid(a) && BaseName(a.path) == a.name
    ensures ReadsAs(a.path, from, a) <==> ':' !in a.path
  {
    NotDoubleSlash(a);
    if ':' in a.path {
      BareMisreads(a.path, from, a);
    } else {
      WithoutColon(a.path, from);
    }
    ReadAs(a, a.path, from);
  }

  /** A text that starts with two slashes is absolute: from any path it is read as without
      them, relative to the root. */
  lemma AbsoluteRoundTrip(a: Address, from: string)
    requires Valid(a)
    ensures ReadsAs("//" + a.path + ":" + a.name, from, a) <==> ':' !in a.name
  {
    ColonParts("//" + a.path, a, from);
    ReadAs(a, "//" + a.path + ":" + a.name, from);
  }

  lemma AbsoluteBareParts(a: Address, text: string, from: string)
    requires text == "//" + a.path && BaseName(a.path) == a.name
    ensures Gives(text, from, a) <==> ':' !in a.path
  {
    if ':' in a.path {
      BareMisreads(text, from, a);
    } else {
      assert StripPrefix(text, "//") == a.path;
    }
  }

  lemma AbsoluteBare(a: Address, from: string)
    requires Valid(a) && BaseName(a.path) == a.name
    ensures ReadsAs("//" + a.path, from, a) <==> ':' !in a.path
  {
    AbsoluteBareParts(a, "//" + a.path, from);
    ReadAs(a, "//" + a.path, from);
  }

  /** The default name is the last component of the path. */
  lemma DefaultName(dir: string, name: string)
    requires '/' !in name
    ensures BaseName(dir + "/" + name) == name && BaseName(name) == name
  {
    LastIndexUnique(dir, '/', name);
    SliceAround(dir, '/', name);
  }

  /** The text a reference takes the name from: it must not hold a colon. */
  function ReferenceKey(a: Address, from: string): string {
    if from == a.path || BaseName(a.path) != a.name then a.name else a.path
  }

  lemma ReferenceParts(a: Address, from: string)
    requires !StartsWith(a.path, "//")
    ensures Gives(Reference(a, Some(from)), from, a) <==> ':' !in ReferenceKey(a, from)
  {
    if from == a.path {
      RelativeParts(a);
    } else if BaseName(a.path) != a.name {
      CanonicalParts(a, from);
    } else if ':' in a.path {
      BareMisreads(a.path, from, a);
    } else {
      WithoutColon(a.path, from);
    }
  }

  /** Likewise for the form used to refer to it from a BUILD file at `from`, whether that is
      the relative form, the canonical form, or the bare path of a default-named target. */
  lemma ReferenceRoundTrip(a: Address, from: string)
    requires Valid(a)
    ensures ReadsAs(Reference(a, Some(from)), from, a) <==> ':' !in ReferenceKey(a, from)
  {
    NotDoubleSlash(a);
    ReferenceParts(a, from);
    ReadAs(a, Reference(a, Some(from)), from);
  }

  predicate Letter(c: char) {
    'a' <= c <= 'z'
  }

  predicate Word(s: string) {
    s != "" && forall c :: c in s ==> Letter(c)
  }

  lemma OnePart(path: string)
    requires path != "" && Letter(path[0]) && '/' !in path
    ensures SanePath(path)
  {
    SplitPlain(path);
    SanePathExact(path);
  }

  lemma WordsValid(a: string, b: string, c: string)
    requires Word(a) && Word(b) && Word(c)
    ensures Valid(Address(a, b + ":" + c)) && Valid(Address(a + ":" + b, c))
  {
    assert a[0] in a && (a + ":" + b)[0] == a[0];
    OnePart(a);
    OnePart(a + ":" + b);
  }

  /** A colon in a name moves into the path: the spec of one valid address is read as another. */
  lemma SpecMisread(a: string, b: string, c: string, from: string)
    requires Word(a) && Word(b) && Word(c)
    ensures Valid(Address(a, b + ":" + c)) && ReadsAs(Spec(Address(a, b + ":" + c)), from, Address(a + ":" + b, c))
  {
    WordsValid(a, b, c);
    var x := Address(a + ":" + b, c);
    assert Spec(Address(a, b + ":" + c)) == x.path + ":" + x.name;
    SpecColon(x.path, x.name);
    NotDoubleSlash(x);
    ReadAs(x, x.path + ":" + x.name, from);
  }
}
