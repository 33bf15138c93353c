/** Hydrating a struct: one pass collects the addresses it refers to, a second puts the resolved
    objects in their place (src/python/pants/engine/build_files.py). */
module Hydration {
  import opened Wrappers
  import opened Graphs
  import opened Addresses

  /** A struct has a type and fields, here in the order of their keys. A field holds one value,
      or a mapping or list of values; the items of a list have no names. */
  datatype Struct = Struct(kind: string, fields: seq<Field>)

  datatype Field = Field(key: string, content: Content)

  datatype Content = Single(value: Value) | Container(mapping: bool, entries: seq<Entry>)

  datatype Entry = Entry(name: string, value: Value)

  datatype Value = Text(spec: string) | Nested(item: Struct) | Plain(id: int)

  /** A hydrated struct: its type, the path given to it, the address at the top level, and its
      arguments. Fields that are not addressable stay as they are. */
  datatype HStruct = HStruct(kind: string, path: string, address: Option<Address>, fields: seq<HField>)

  datatype HField = HField(key: string, content: HContent)

  datatype HContent = Raw(raw: Content) | HSingle(value: HValue) | HContainer(mapping: bool, entries: seq<HEntry>)

  datatype HEntry = HEntry(name: string, value: HValue)

  datatype HValue = Absolute(address: Address) | Resolved(target: HStruct) | HNested(item: HStruct) | HPlain(id: int)

  /** The directory of a BUILD file, how specs in it are read, and which fields are
      addressable. */
  datatype Reading = Reading(path: string, parse: string -> Option<Address>, addressable: (string, string) -> bool)

  /** Specs are read relative to the BUILD file's directory. */
  function BuildFile(path: string, addressable: (string, string) -> bool): Reading {
    Reading(path, spec => match Parse(spec, path) case Ok(a) => Some(a) case _ => None, addressable)
  }

  /** How a BUILD file is read, and what the engine resolves an address to. */
  datatype Env = Env(file: Reading, resolve: Address -> Option<HStruct>)

  function Both<A>(a: Option<seq<A>>, b: Option<seq<A>>): Option<seq<A>> {
    if a.None? || b.None? then None else Some(a.value + b.value)
  }

  // ---- Direct substitution --------------------------------------------------------------------

  /** The struct with every inline address replaced by the object at its own parsed address, and
      every dependency by its absolute address; none if one cannot be parsed or resolved. */
  function Subst(env: Env, s: Struct, address: Option<Address>): Option<HStruct>
    decreases s, 1
  {
    var fields := SubstFields(env, s.kind, s.fields);
    if fields.None? then None else Some(HStruct(s.kind, env.file.path, address, fields.value))
  }

  function SubstFields(env: Env, kind: string, fields: seq<Field>): Option<seq<HField>>
    decreases fields, 0
  {
    if fields == [] then Some([])
    else
      var front, last := SubstFields(env, kind, fields[..|fields| - 1]), SubstField(env, kind, fields[|fields| - 1]);
      if last.None? then None else Both(front, Some([last.value]))
  }

  function SubstField(env: Env, kind: string, f: Field): Option<HField>
    decreases f, 1
  {
    if !env.file.addressable(kind, f.key) then Some(HField(f.key, Raw(f.content)))
    else
      var content := SubstContent(env, f.key, f.content);
      if content.None? then None else Some(HField(f.key, content.value))
  }

  function SubstContent(env: Env, key: string, c: Content): Option<HContent>
    decreases c, 1
  {
    match c
    case Single(v) =>
      var h := SubstValue(env, key, v);
      if h.None? then None else Some(HSingle(h.value))
    case Container(mapping, entries) =>
      var hs := SubstEntries(env, key, entries);
      if hs.None? then None else Some(HContainer(mapping, hs.value))
  }

  function SubstEntries(env: Env, key: string, entries: seq<Entry>): Option<seq<HEntry>>
    decreases entries, 0
  {
    if entries == [] then Some([])
    else
      var front, e := SubstEntries(env, key, entries[..|entries| - 1]), entries[|entries| - 1];
      var h := SubstValue(env, key, e.value);
      if h.None? then None else Both(front, Some([HEntry(e.name, h.value)]))
  }

  function SubstValue(env: Env, key: string, v: Value): Option<HValue>
    decreases v, 1
  {
    match v
    case Plain(id) => Some(HPlain(id))
    case Nested(item) =>
      var h := Subst(env, item, None);
      if h.None? then None else Some(HNested(h.value))
    case Text(spec) =>
      var a := env.file.parse(spec);
      if a.None? then None
      else if key == "dependencies" then Some(Absolute(a.value))
      else
        var h := env.resolve(a.value);
        if h.None? then None else Some(Resolved(h.value))
  }

  // ---- What the first pass should collect -----------------------------------------------------

  /** The inline addresses of a struct, in the order of its fields. */
  function Refs(file: Reading, s: Struct): Option<seq<Address>>
    decreases s, 1
  {
    FieldRefs(file, s.kind, s.fields)
  }

  function FieldRefs(file: Reading, kind: string, fields: seq<Field>): Option<seq<Address>>
    decreases fields, 0
  {
    if fields == [] then Some([])
    else Both(FieldRefs(file, kind, fields[..|fields| - 1]), OneFieldRefs(file, kind, fields[|fields| - 1]))
  }

  function OneFieldRefs(file: Reading, kind: string, f: Field): Option<seq<Address>>
    decreases f, 1
  {
    if file.addressable(kind, f.key) then ContentRefs(file, f.key, f.content) else Some([])
  }

  function ContentRefs(file: Reading, key: string, c: Content): Option<seq<Address>>
    decreases c, 1
  {
    match c
    case Single(v) => ValueRefs(file, key, v)
    case Container(_, entries) => EntryRefs(file, key, entries)
  }

  function EntryRefs(file: Reading, key: string, entries: seq<Entry>): Option<seq<Address>>
    decreases entries, 0
  {
    if entries == [] then Some([])
    else Both(EntryRefs(file, key, entries[..|entries| - 1]), ValueRefs(file, key, entries[|entries| - 1].value))
  }

  function ValueRefs(file: Reading, key: string, v: Value): Option<seq<Address>>
    decreases v, 1
  {
    match v
    case Plain(_) => Some([])
    case Nested(item) => Refs(file, item)
    case Text(spec) =>
      if key == "dependencies" then Some([])
      else
        var a := file.parse(spec);
        if a.None? then None else Some([a.value])
  }

  ghost predicate Resolvable(env: Env, refs: Option<seq<Address>>) {
    refs.Some? && forall b :: b in refs.value ==> env.resolve(b).Some?
  }

  ghost predicate Agree(env: Env, env': Env, refs: Option<seq<Address>>) {
    refs.Some? && forall b :: b in refs.value ==> env.resolve(b) == env'.resolve(b)
  }

  /** `r` and `r'` are what two environments make of something that refers to `refs`. They
      conflict if the first succeeds without resolving all of `refs`, or the second resolves
      them and fails, or resolves them alike and gives something else. */
  ghost predicate Conflict<T>(env: Env, r: Option<T>, env': Env, r': Option<T>, refs: Option<seq<Address>>) {
    r.Some? && (|| !Resolvable(env, refs)
                || (Resolvable(env', refs) && r'.None?)
                || (Agree(env, env', refs) && r' != r))
  }

  /** Substitution looks at the engine's answers to what the first pass collects, and needs all
      of them. */
  lemma {:induction false} SubstTransfers(env: Env, env': Env, s: Struct, address: Option<Address>)
    requires env'.file == env.file
    ensures !Conflict(env, Subst(env, s, address), env', Subst(env', s, address), Refs(env.file, s))
    decreases s, 1
  {
    FieldsTransfer(env, env', s.kind, s.fields);
  }

  lemma {:induction false} FieldsTransfer(env: Env, env': Env, kind: string, fields: seq<Field>)
    requires env'.file == env.file
    ensures !Conflict(env, SubstFields(env, kind, fields), env', SubstFields(env', kind, fields),
                      FieldRefs(env.file, kind, fields))
    decreases fields, 0
  {
    if fields != [] {
      var f := fields[|fields| - 1];
      FieldsTransfer(env, env', kind, fields[..|fields| - 1]);
      FieldTransfers(env, env', kind, f);
    }
  }

  lemma {:induction false} FieldTransfers(env: Env, env': Env, kind: string, f: Field)
    requires env'.file == env.file
    ensures !Conflict(env, SubstField(env, kind, f), env', SubstField(env', kind, f), OneFieldRefs(env.file, kind, f))
    decreases f, 1
  {
    ContentTransfers(env, env', f.key, f.content);
  }

  lemma {:induction false} ContentTransfers(env: Env, env': Env, key: string, c: Content)
    requires env'.file == env.file
    ensures !Conflict(env, SubstContent(env, key, c), env', SubstContent(env', key, c), ContentRefs(env.file, key, c))
    decreases c, 1
  {
    match c
    case Single(v) => ValueTransfers(env, env', key, v);
    case Container(_, entries) => EntriesTransfer(env, env', key, entries);
  }

  lemma {:induction false} EntriesTransfer(env: Env, env': Env, key: string, entries: seq<Entry>)
    requires env'.file == env.file
    ensures !Conflict(env, SubstEntries(env, key, entries), env', SubstEntries(env', key, entries),
                      EntryRefs(env.file, key, entries))
    decreases entries, 0
  {
    if entries != [] {
      EntriesTransfer(env, env', key, entries[..|entries| - 1]);
      ValueTransfers(env, env', key, entries[|entries| - 1].value);
    }
  }

  lemma {:induction false} ValueTransfers(env: Env, env': Env, key: string, v: Value)
    requires env'.file == env.file
    ensures !Conflict(env, SubstValue(env, key, v), env', SubstValue(env', key, v), ValueRefs(env.file, key, v))
    decreases v, 1
  {
    if v.Nested? {
      SubstTransfers(env, env', v.item, None);
    }
  }

  lemma EntriesSnoc(env: Env, key: string, entries: seq<Entry>, i: nat)
    requires i < |entries|
    ensures EntryRefs(env.file, key, entries[..i + 1]) ==
              Both(EntryRefs(env.file, key, entries[..i]), ValueRefs(env.file, key, entries[i].value))
    ensures SubstEntries(env, key, entries[..i + 1]) ==
              var h := SubstValue(env, key, entries[i].value);
              if h.None? then None
              else Both(SubstEntries(env, key, entries[..i]), Some([HEntry(entries[i].name, h.value)]))
  {
    assert entries[..i + 1][..i] == entries[..i];
  }

  lemma FieldsSnoc(env: Env, kind: string, fields: seq<Field>, i: nat)
    requires i < |fields|
    ensures FieldRefs(env.file, kind, fields[..i + 1]) ==
              Both(FieldRefs(env.file, kind, fields[..i]), OneFieldRefs(env.file, kind, fields[i]))
    ensures SubstFields(env, kind, fields[..i + 1]) ==
              var h := SubstField(env, kind, fields[i]);
              if h.None? then None else Both(SubstFields(env, kind, fields[..i]), Some([h.value]))
  {
    assert fields[..i + 1][..i] == fields[..i];
  }

  /** An entry or field that fails makes the whole fail. */
  lemma {:induction false} EntryFails(env: Env, key: string, entries: seq<Entry>, i: nat)
    requires i < |entries|
    ensures ValueRefs(env.file, key, entries[i].value).None? ==> EntryRefs(env.file, key, entries).None?
    ensures SubstValue(env, key, entries[i].value).None? ==> SubstEntries(env, key, entries).None?
    decreases |entries|
  {
    if i < |entries| - 1 {
      EntryFails(env, key, entries[..|entries| - 1], i);
    }
  }

  lemma {:induction false} FieldFails(env: Env, kind: string, fields: seq<Field>, i: nat)
    requires i < |fields|
    ensures OneFieldRefs(env.file, kind, fields[i]).None? ==> FieldRefs(env.file, kind, fields).None?
    ensures SubstField(env, kind, fields[i]).None? ==> SubstFields(env, kind, fields).None?
    decreases |fields|
  {
    if i < |fields| - 1 {
      FieldFails(env, kind, fields[..|fields| - 1], i);
    }
  }

  // ---- The two passes ---------------------------------------------------------------------------

  class Hydrator {
    const env: Env
    var inlineDependencies: seq<Address>
    var dependencies: seq<HStruct>
    var idx: nat

    constructor (env: Env)
      ensures this.env == env && inlineDependencies == [] && dependencies == [] && idx == 0
    {
      this.env, inlineDependencies, dependencies, idx := env, [], [], 0;
    }

    /** Exactly `refs` was appended to the collected addresses. */
    twostate predicate Collected(refs: Option<seq<Address>>)
      reads this
    {
      refs.Some? && inlineDependencies == old(inlineDependencies) + refs.value
    }

    method MaybeAppend(key: string, v: Value) returns (ok: bool)
      modifies this`inlineDependencies
      ensures ok <==> ValueRefs(env.file, key, v).Some?
      ensures ok ==> Collected(ValueRefs(env.file, key, v))
      decreases v, 1
    {
      match v
      case Plain(_) =>
        return true;
      case Nested(item) =>
        ok := CollectInlineDependencies(item);
      case Text(spec) =>
        if key != "dependencies" {
          var a := env.file.parse(spec);
          if a.None? {
            return false;
          }
          inlineDependencies := inlineDependencies + [a.value];
        }
        return true;
    }

    method CollectContent(key: string, c: Content) returns (ok: bool)
      modifies this`inlineDependencies
      ensures ok <==> ContentRefs(env.file, key, c).Some?
      ensures ok ==> Collected(ContentRefs(env.file, key, c))
      decreases c, 1
    {
      match c
      case Single(v) =>
        ok := MaybeAppend(key, v);
      case Container(_, entries) =>
        ok := CollectEntries(key, entries);
    }

    method CollectEntries(key: string, entries: seq<Entry>) returns (ok: bool)
      modifies this`inlineDependencies
      ensures ok <==> EntryRefs(env.file, key, entries).Some?
      ensures ok ==> Collected(EntryRefs(env.file, key, entries))
      decreases entries, 0
    {
      for i := 0 to |entries|
        invariant Collected(EntryRefs(env.file, key, entries[..i]))
      {
        EntriesSnoc(env, key, entries, i);
        ok := MaybeAppend(key, entries[i].value);
        if !ok {
          EntryFails(env, key, entries, i);
          return;
        }
      }
      assert entries[..|entries|] == entries;
      return true;
    }

    method CollectInlineDependencies(item: Struct) returns (ok: bool)
      modifies this`inlineDependencies
      ensures ok <==> Refs(env.file, item).Some?
      ensures ok ==> Collected(Refs(env.file, item))
      decreases item, 0
    {
      var fields := item.fields;
      for i := 0 to |fields|
        invariant Collected(FieldRefs(env.file, item.kind, fields[..i]))
      {
        FieldsSnoc(env, item.kind, fields, i);
        if !env.file.addressable(item.kind, fields[i].key) {
          continue;
        }
        ok := CollectContent(fields[i].key, fields[i].content);
        if !ok {
          FieldFails(env, item.kind, fields, i);
          return;
        }
      }
      assert fields[..|fields|] == fields;
      return true;
    }

    /** The results from `k` on answer `refs`. */
    ghost predicate Supplies(k: nat, refs: Option<seq<Address>>)
      reads this
    {
      refs.Some? && k + |refs.value| <= |dependencies| &&
      forall i :: 0 <= i < |refs.value| ==> env.resolve(refs.value[i]) == Some(dependencies[k + i])
    }

    lemma SuppliesParts(k: nat, a: Option<seq<Address>>, b: Option<seq<Address>>)
      ensures Supplies(k, Both(a, b)) <==> Supplies(k, a) && Supplies(k + |a.value|, b)
    {
      if a.Some? && b.Some? {
        var all := Both(a, b).value;
        assert forall i :: 0 <= i < |a.value| ==> all[i] == a.value[i];
        assert forall i :: 0 <= i < |b.value| ==> all[|a.value| + i] == b.value[i];
        if Supplies(k, Both(a, b)) {
          forall i | 0 <= i < |b.value|
            ensures env.resolve(b.value[i]) == Some(dependencies[k + |a.value| + i])
          {
            assert env.resolve(all[|a.value| + i]) == Some(dependencies[k + (|a.value| + i)]);
          }
        }
      }
    }

    method MaybeConsume(key: string, v: Value) returns (r: Option<HValue>)
      requires Supplies(idx, ValueRefs(env.file, key, v))
      modifies this`idx
      ensures r == SubstValue(env, key, v)
      ensures r.Some? ==> idx == old(idx) + |ValueRefs(env.file, key, v).value|
      decreases v, 1
    {
      match v
      case Plain(id) =>
        return Some(HPlain(id));
      case Nested(item) =>
        var h := ConsumeDependencies(item, None);
        return if h.None? then None else Some(HNested(h.value));
      case Text(spec) =>
        if key == "dependencies" {
          var a := env.file.parse(spec);
          return if a.None? then None else Some(Absolute(a.value));
        }
        r := Some(Resolved(dependencies[idx]));
        assert env.resolve(ValueRefs(env.file, key, v).value[0]) == Some(dependencies[idx + 0]);
        idx := idx + 1;
    }

    method ConsumeContent(key: string, c: Content) returns (r: Option<HContent>)
      requires Supplies(idx, ContentRefs(env.file, key, c))
      modifies this`idx
      ensures r == SubstContent(env, key, c)
      ensures r.Some? ==> idx == old(idx) + |ContentRefs(env.file, key, c).value|
      decreases c, 1
    {
      match c
      case Single(v) =>
        var h := MaybeConsume(key, v);
        return if h.None? then None else Some(HSingle(h.value));
      case Container(mapping, entries) =>
        var hs := ConsumeEntries(key, entries);
        return if hs.None? then None else Some(HContainer(mapping, hs.value));
    }

    lemma {:induction false} SuppliesEntry(k: nat, key: string, entries: seq<Entry>, i: nat)
      requires Supplies(k, EntryRefs(env.file, key, entries)) && i < |entries|
      ensures exists before :: EntryRefs(env.file, key, entries[..i]) == Some(before) &&
                               Supplies(k + |before|, ValueRefs(env.file, key, entries[i].value))
      decreases |entries|
    {
      var front := entries[..|entries| - 1];
      SuppliesParts(k, EntryRefs(env.file, key, front), ValueRefs(env.file, key, entries[|entries| - 1].value));
      if i < |entries| - 1 {
        SuppliesEntry(k, key, front, i);
        assert front[..i] == entries[..i];
      }
    }

    method ConsumeEntries(key: string, entries: seq<Entry>) returns (r: Option<seq<HEntry>>)
      requires Supplies(idx, EntryRefs(env.file, key, entries))
      modifies this`idx
      ensures r == SubstEntries(env, key, entries)
      ensures r.Some? ==> idx == old(idx) + |EntryRefs(env.file, key, entries).value|
      decreases entries, 0
    {
      var hs := [];
      for i := 0 to |entries|
        invariant SubstEntries(env, key, entries[..i]) == Some(hs)
        invariant EntryRefs(env.file, key, entries[..i]).Some?
        invariant idx == old(idx) + |EntryRefs(env.file, key, entries[..i]).value|
      {
        EntriesSnoc(env, key, entries, i);
        SuppliesEntry(old(idx), key, entries, i);
        var h := MaybeConsume(key, entries[i].value);
        if h.None? {
          EntryFails(env, key, entries, i);
          return None;
        }
        hs := hs + [HEntry(entries[i].name, h.value)];
      }
      assert entries[..|entries|] == entries;
      return Some(hs);
    }

    lemma {:induction false} SuppliesField(k: nat, kind: string, fields: seq<Field>, i: nat)
      requires Supplies(k, FieldRefs(env.file, kind, fields)) && i < |fields|
      ensures exists before :: FieldRefs(env.file, kind, fields[..i]) == Some(before) &&
                               Supplies(k + |before|, OneFieldRefs(env.file, kind, fields[i]))
      decreases |fields|
    {
      var front := fields[..|fields| - 1];
      SuppliesParts(k, FieldRefs(env.file, kind, front), OneFieldRefs(env.file, kind, fields[|fields| - 1]));
      if i < |fields| - 1 {
        SuppliesField(k, kind, front, i);
        assert front[..i] == fields[..i];
      }
    }

    method ConsumeField(kind: string, f: Field) returns (r: Option<HField>)
      requires Supplies(idx, OneFieldRefs(env.file, kind, f))
      modifies this`idx
      ensures r == SubstField(env, kind, f)
      ensures r.Some? ==> idx == old(idx) + |OneFieldRefs(env.file, kind, f).value|
      decreases f, 1
    {
      if !env.file.addressable(kind, f.key) {
        return Some(HField(f.key, Raw(f.content)));
      }
      var h := ConsumeContent(f.key, f.content);
      return if h.None? then None else Some(HField(f.key, h.value));
    }

    method ConsumeDependencies(item: Struct, address: Option<Address>) returns (r: Option<HStruct>)
      requires Supplies(idx, Refs(env.file, item))
      modifies this`idx
      ensures r == Subst(env, item, address)
      ensures r.Some? ==> idx == old(idx) + |Refs(env.file, item).value|
      decreases item, 0
    {
      var fields, hs := item.fields, [];
      for i := 0 to |fields|
        invariant SubstFields(env, item.kind, fields[..i]) == Some(hs)
        invariant FieldRefs(env.file, item.kind, fields[..i]).Some?
        invariant idx == old(idx) + |FieldRefs(env.file, item.kind, fields[..i]).value|
      {
        FieldsSnoc(env, item.kind, fields, i);
        SuppliesField(old(idx), item.kind, fields, i);
        var h := ConsumeField(item.kind, fields[i]);
        if h.None? {
          FieldFails(env, item.kind, fields, i);
          return None;
        }
        hs := hs + [h.value];
      }
      assert fields[..|fields|] == fields;
      return Some(HStruct(item.kind, env.file.path, address, hs));
    }

    /** The request for all collected addresses; none if one cannot be resolved. */
    method ResolveAll() returns (ok: bool)
      modifies this`dependencies
      ensures ok ==> Supplies(0, Some(inlineDependencies)) && |dependencies| == |inlineDependencies|
      ensures !ok ==> !Resolvable(env, Some(inlineDependencies))
    {
      dependencies := [];
      for i := 0 to |inlineDependencies|
        invariant |dependencies| == i
        invariant forall j :: 0 <= j < i ==> env.resolve(inlineDependencies[j]) == Some(dependencies[j])
      {
        var h := env.resolve(inlineDependencies[i]);
        if h.None? {
          return false;
        }
        dependencies := dependencies + [h.value];
      }
      return true;
    }
  }

  /** An address written the way it is referred to from the BUILD file is replaced by what it
      resolves to. */
  lemma ReferenceHydrates(path: string, addressable: (string, string) -> bool, resolve: Address -> Option<HStruct>,
                          key: string, a: Address)
    requires Addresses.Valid(a) && key != "dependencies" && resolve(a).Some?
    requires ':' !in Addresses.ReferenceKey(a, path)
    ensures SubstValue(Env(BuildFile(path, addressable), resolve), key, Text(Reference(a, Some(path)))) ==
              Some(Resolved(resolve(a).value))
  {
    ReferenceRoundTrip(a, path);
  }

  /** `hydrate_struct`: the two passes together are the direct substitution, and the second uses
      up exactly what the first requested. */
  method Hydrate(env: Env, item: Struct, address: Address) returns (r: Option<HStruct>, requested: nat, used: nat)
    ensures r == Subst(env, item, Some(address))
    ensures r.Some? ==> used == requested
  {
    var h := new Hydrator(env);
    SubstTransfers(env, env, item, Some(address));
    var ok := h.CollectInlineDependencies(item);
    if !ok {
      return None, 0, 0;
    }
    assert h.inlineDependencies == Refs(env.file, item).value;
    ok := h.ResolveAll();
    if !ok {
      return None, |h.inlineDependencies|, 0;
    }
    r := h.ConsumeDependencies(item, Some(address));
    requested, used := |h.dependencies|, h.idx;
  }

  // ---- Hydrating what is referred to, too -----------------------------------------------------

  /** The structs of all BUILD files, and which of their fields are addressable. */
  datatype Files = Files(structs: map<Address, Struct>, addressable: (string, string) -> bool)
  {
    function At(a: Address): Reading {
      BuildFile(a.path, addressable)
    }

    /** The addresses that the struct at `a` refers to inline. */
    function RefsOf(a: Address): seq<Address> {
      if a !in structs then [] else
        var refs := Refs(At(a), structs[a]);
        if refs.None? then [] else refs.value
    }

    ghost function Edges(): set<(Address, Address)> {
      set a, b | a in structs && b in RefsOf(a) :: (a, b)
    }
  }

  /** The engine's answer for `a`: its struct, hydrated with the answers for what it refers to. */
  function Answer(f: Files, a: Address): Option<HStruct>
    requires Ends(f.Edges(), a)
    decreases Rank(f.Edges(), a), 1
  {
    if a in f.structs then Subst(Env(f.At(a), Below(f, a)), f.structs[a], Some(a)) else None
  }

  /** The answers for what the struct at `a` refers to. */
  function Below(f: Files, a: Address): Address -> Option<HStruct>
    requires Ends(f.Edges(), a)
    decreases Rank(f.Edges(), a), 0
  {
    b =>
      if b in f.RefsOf(a) then
        assert (a, b) in f.Edges();
        EndsBelow(f.Edges(), a, b);
        Answer(f, b)
      else None
  }

  /** `resolve` answers for `a` from its own answers for what `a` refers to. */
  ghost predicate Solves(f: Files, resolve: Address -> Option<HStruct>, a: Address) {
    resolve(a) == if a in f.structs then Subst(Env(f.At(a), resolve), f.structs[a], Some(a)) else None
  }

  lemma SameAnswers(f: Files, a: Address, resolve: Address -> Option<HStruct>, resolve': Address -> Option<HStruct>)
    requires a in f.structs && forall b :: b in f.RefsOf(a) ==> resolve(b) == resolve'(b)
    ensures var env, env' := Env(f.At(a), resolve), Env(f.At(a), resolve');
            Subst(env, f.structs[a], Some(a)) == Subst(env', f.structs[a], Some(a))
  {
    SubstTransfers(Env(f.At(a), resolve), Env(f.At(a), resolve'), f.structs[a], Some(a));
    SubstTransfers(Env(f.At(a), resolve'), Env(f.At(a), resolve), f.structs[a], Some(a));
  }

  /** Where inline references make no cycle, there is one way only to answer for `a` and all it
      leads to. */
  lemma {:induction false} AnswerUnique(f: Files, resolve: Address -> Option<HStruct>, a: Address)
    requires Ends(f.Edges(), a) && forall b :: Reach(f.Edges(), a, b) ==> Solves(f, resolve, b)
    ensures resolve(a) == Answer(f, a)
    decreases Rank(f.Edges(), a)
  {
    ReachRefl(f.Edges(), a);
    if a in f.structs {
      forall b | b in f.RefsOf(a)
        ensures resolve(b) == Below(f, a)(b)
      {
        assert (a, b) in f.Edges();
        EndsBelow(f.Edges(), a, b);
        forall c | Reach(f.Edges(), b, c)
          ensures Solves(f, resolve, c)
        {
          ReachCons(f.Edges(), a, b, c);
        }
        AnswerUnique(f, resolve, b);
      }
      SameAnswers(f, a, resolve, Below(f, a));
    }
  }

  ghost function Answers(f: Files): Address -> Option<HStruct> {
    a => if Ends(f.Edges(), a) then Answer(f, a) else None
  }

  lemma AnswersSolve(f: Files, a: Address)
    requires Ends(f.Edges(), a)
    ensures Solves(f, Answers(f), a)
  {
    if a in f.structs {
      forall b | b in f.RefsOf(a)
        ensures Answers(f)(b) == Below(f, a)(b)
      {
        assert (a, b) in f.Edges();
        EndsBelow(f.Edges(), a, b);
      }
      SameAnswers(f, a, Answers(f), Below(f, a));
    }
  }

  const BLANK := HStruct("", "", None, [])

  /** The struct at `a` is there and all its specs can be read. */
  predicate Sound(f: Files, a: Address) {
    a in f.structs && Subst(Env(f.At(a), b => Some(BLANK)), f.structs[a], Some(a)).Some?
  }

  lemma SoundAnswer(f: Files, a: Address)
    requires Ends(f.Edges(), a)
    ensures Answer(f, a).Some? <==> Sound(f, a) && forall b :: b in f.RefsOf(a) ==> Below(f, a)(b).Some?
  {
    if a in f.structs {
      var env, blank := Env(f.At(a), Below(f, a)), Env(f.At(a), b => Some(BLANK));
      SubstTransfers(env, blank, f.structs[a], Some(a));
      SubstTransfers(blank, env, f.structs[a], Some(a));
    }
  }

  /** An address is hydrated exactly when every struct it leads to is there and can be read. */
  lemma {:induction false} AnswerExactly(f: Files, a: Address)
    requires Ends(f.Edges(), a)
    ensures Answer(f, a).Some? <==> forall b :: Reach(f.Edges(), a, b) ==> Sound(f, b)
    decreases Rank(f.Edges(), a)
  {
    var E := f.Edges();
    SoundAnswer(f, a);
    ReachRefl(E, a);
    forall b | b in f.RefsOf(a)
      ensures Below(f, a)(b).Some? <==> forall c :: Reach(E, b, c) ==> Sound(f, c)
    {
      assert (a, b) in E;
      EndsBelow(E, a, b);
      AnswerExactly(f, b);
    }
    forall b, c | b in f.RefsOf(a) && Reach(E, b, c)
      ensures Reach(E, a, c)
    {
      assert (a, b) in E;
      ReachCons(E, a, b, c);
    }
    forall c | Reach(E, a, c) && c != a
      ensures exists b :: b in f.RefsOf(a) && Reach(E, b, c)
    {
      var b := ReachFirst(E, a, c);
    }
  }

  /** `hydrate_struct` at an address, with the engine running it at those it refers to. */
  method HydrateAddress(f: Files, a: Address) returns (r: Option<HStruct>)
    requires Ends(f.Edges(), a)
    ensures r == Answer(f, a)
  {
    if a !in f.structs {
      return None;
    }
    var requested, used;
    r, requested, used := Hydrate(Env(f.At(a), Below(f, a)), f.structs[a], a);
  }
}
