/** What hydration keeps of a struct, and what it puts in the place of specs
    (src/python/pants/engine/build_files.py). */
module Erasure {
  import opened Wrappers
  import opened Graphs
  import opened Addresses
  import opened Hydration

  type Printing = Address -> string

  // ---- Back from a hydrated struct --------------------------------------------------------------

  /** The struct that a hydrated one came from, with addresses printed for what was put in. */
  function Erase(show: Printing, h: HStruct): Struct {
    Struct(h.kind, seq(|h.fields|, i requires 0 <= i < |h.fields| =>
                   Field(h.fields[i].key, EraseContent(show, h.fields[i].content))))
  }

  function EraseContent(show: Printing, c: HContent): Content {
    match c
    case Raw(raw) => raw
    case HSingle(v) => Single(EraseValue(show, v))
    case HContainer(mapping, entries) =>
      Container(mapping, seq(|entries|, i requires 0 <= i < |entries| =>
                         Entry(entries[i].name, EraseValue(show, entries[i].value))))
  }

  function EraseValue(show: Printing, v: HValue): Value {
    match v
    case Absolute(a) => Text(show(a))
    case Resolved(t) => Text(if t.address.Some? then show(t.address.value) else "")
    case HNested(item) => Nested(Erase(show, item))
    case HPlain(id) => Plain(id)
  }

  // ---- The struct with its specs in printed form ------------------------------------------------

  /** The struct with every spec in an addressable field replaced by its address as printed. */
  function Canonical(show: Printing, file: Reading, s: Struct): Struct
    decreases s
  {
    Struct(s.kind, seq(|s.fields|, i requires 0 <= i < |s.fields| => CanonicalField(show, file, s.kind, s.fields[i])))
  }

  function CanonicalField(show: Printing, file: Reading, kind: string, f: Field): Field
    decreases f
  {
    if file.addressable(kind, f.key) then Field(f.key, CanonicalContent(show, file, f.content)) else f
  }

  function CanonicalContent(show: Printing, file: Reading, c: Content): Content
    decreases c
  {
    match c
    case Single(v) => Single(CanonicalValue(show, file, v))
    case Container(mapping, entries) =>
      Container(mapping, seq(|entries|, i requires 0 <= i < |entries| =>
                         Entry(entries[i].name, CanonicalValue(show, file, entries[i].value))))
  }

  function CanonicalValue(show: Printing, file: Reading, v: Value): Value
    decreases v
  {
    match v
    case Plain(_) => v
    case Nested(item) => Nested(Canonical(show, file, item))
    case Text(spec) =>
      var a := file.parse(spec);
      if a.None? then v else Text(show(a.value))
  }

  // ---- What a hydrated struct looks like --------------------------------------------------------

  /** The struct has the path of its file and this address, structs inside it have the path and
      no address, exactly the fields that are not addressable are as they were, and values are as
      `ValueFits` says. */
  ghost predicate Fits(env: Env, h: HStruct, address: Option<Address>)
    decreases h
  {
    && h.path == env.file.path && h.address == address
    && forall i :: 0 <= i < |h.fields| ==>
         && (h.fields[i].content.Raw? <==> !env.file.addressable(h.kind, h.fields[i].key))
         && ContentFits(env, h.fields[i].key, h.fields[i].content)
  }

  ghost predicate ContentFits(env: Env, key: string, c: HContent)
    decreases c
  {
    match c
    case Raw(_) => true
    case HSingle(v) => ValueFits(env, key, v)
    case HContainer(_, entries) => forall i :: 0 <= i < |entries| ==> ValueFits(env, key, entries[i].value)
  }

  /** Dependencies hold addresses; other fields hold what the engine resolves an address to. */
  ghost predicate ValueFits(env: Env, key: string, v: HValue)
    decreases v
  {
    match v
    case Absolute(_) => key == "dependencies"
    case Resolved(t) => key != "dependencies" && t.address.Some? && env.resolve(t.address.value) == Some(t)
    case HNested(item) => Fits(env, item, None)
    case HPlain(_) => true
  }

  // ---- Hydration does that ------------------------------------------------------------------------

  /** The engine answers with the object at the address it is asked for. */
  ghost predicate Addressed(env: Env) {
    forall a :: env.resolve(a).Some? ==> env.resolve(a).value.address == Some(a)
  }

  lemma {:induction false} FieldByField(env: Env, kind: string, fields: seq<Field>, i: nat)
    requires SubstFields(env, kind, fields).Some?
    ensures |SubstFields(env, kind, fields).value| == |fields|
    ensures i < |fields| ==> SubstField(env, kind, fields[i]) == Some(SubstFields(env, kind, fields).value[i])
    decreases |fields|
  {
    if fields != [] {
      FieldByField(env, kind, fields[..|fields| - 1], i);
    }
  }

  lemma {:induction false} EntryByEntry(env: Env, key: string, entries: seq<Entry>, i: nat)
    requires SubstEntries(env, key, entries).Some?
    ensures |SubstEntries(env, key, entries).value| == |entries|
    ensures i < |entries| ==>
              var h := SubstEntries(env, key, entries).value[i];
              h.name == entries[i].name && SubstValue(env, key, entries[i].value) == Some(h.value)
    decreases |entries|
  {
    if entries != [] {
      EntryByEntry(env, key, entries[..|entries| - 1], i);
    }
  }

  /** A hydrated struct erases to the original with its specs in printed form, whatever the way
      of printing: nothing is lost, moved or made up. */
  lemma {:induction false} SubstErases(env: Env, s: Struct, address: Option<Address>, show: Printing)
    requires Addressed(env) && Subst(env, s, address).Some?
    ensures var h := Subst(env, s, address).value;
            Fits(env, h, address) && Erase(show, h) == Canonical(show, env.file, s)
    decreases s, 1
  {
    var h := Subst(env, s, address).value;
    FieldByField(env, s.kind, s.fields, 0);
    forall i | 0 <= i < |s.fields|
      ensures h.fields[i].key == s.fields[i].key
      ensures h.fields[i].content.Raw? <==> !env.file.addressable(s.kind, s.fields[i].key)
      ensures ContentFits(env, s.fields[i].key, h.fields[i].content)
      ensures Erase(show, h).fields[i] == Canonical(show, env.file, s).fields[i]
    {
      FieldByField(env, s.kind, s.fields, i);
      if env.file.addressable(s.kind, s.fields[i].key) {
        ContentErases(env, s.fields[i].key, s.fields[i].content, show);
      }
    }
  }

  lemma {:induction false} ContentErases(env: Env, key: string, c: Content, show: Printing)
    requires Addressed(env) && SubstContent(env, key, c).Some?
    ensures var h := SubstContent(env, key, c).value;
            !h.Raw? && ContentFits(env, key, h) && EraseContent(show, h) == CanonicalContent(show, env.file, c)
    decreases c, 1
  {
    match c
    case Single(v) => ValueErases(env, key, v, show);
    case Container(_, entries) =>
      var h := SubstContent(env, key, c).value;
      EntryByEntry(env, key, entries, 0);
      forall i | 0 <= i < |entries|
        ensures h.entries[i].name == entries[i].name && ValueFits(env, key, h.entries[i].value)
        ensures EraseValue(show, h.entries[i].value) == CanonicalValue(show, env.file, entries[i].value)
      {
        EntryByEntry(env, key, entries, i);
        ValueErases(env, key, entries[i].value, show);
      }
  }

  lemma {:induction false} ValueErases(env: Env, key: string, v: Value, show: Printing)
    requires Addressed(env) && SubstValue(env, key, v).Some?
    ensures var h := SubstValue(env, key, v).value;
            ValueFits(env, key, h) && EraseValue(show, h) == CanonicalValue(show, env.file, v)
    decreases v, 1
  {
    if v.Nested? {
      SubstErases(env, v.item, None, show);
    }
  }

  // ---- Hydrating at an address --------------------------------------------------------------------

  lemma AnswersAddressed(f: Files, a: Address)
    requires Ends(f.Edges(), a)
    ensures Addressed(Env(f.At(a), Below(f, a)))
  {
  }

  /** What is hydrated at an address has that address, erases to the struct there, and holds the
      answers for the addresses that the struct refers to. */
  lemma AnswerErases(f: Files, a: Address, show: Printing)
    requires Ends(f.Edges(), a) && Answer(f, a).Some?
    ensures var h := Answer(f, a).value;
            && Fits(Env(f.At(a), Below(f, a)), h, Some(a))
            && Erase(show, h) == Canonical(show, f.At(a), f.structs[a])
  {
    AnswersAddressed(f, a);
    SubstErases(Env(f.At(a), Below(f, a)), f.structs[a], Some(a), show);
  }
}
