/** Relations between data models and their diagram (src/core/dx/erd-builder.ts), from parsed
    models on. */
module Erd {
  import opened Lists
  import opened Text

  datatype Field = Field(name: string, typ: string, isList: bool, isOptional: bool)

  datatype Model = Model(name: string, fields: seq<Field>)

  datatype Kind = OneToMany | ManyToMany

  datatype Relation = Relation(from: string, to: string, kind: Kind, fieldName: string)

  // ------------------------------------------------------------ keys of pairs

  /** Code-unit order of texts, as the default sort uses it. */
  predicate LexLe(a: string, b: string) {
    a == [] || (b != [] && (a[0] < b[0] || (a[0] == b[0] && LexLe(a[1..], b[1..]))))
  }

  lemma {:induction false} LexLeIsAntisymmetric(a: string, b: string)
    ensures LexLe(a, b) && LexLe(b, a) ==> a == b
    ensures LexLe(a, b) || LexLe(b, a)
  {
    if a != [] && b != [] {
      LexLeIsAntisymmetric(a[1..], b[1..]);
      assert a == [a[0]] + a[1..] && b == [b[0]] + b[1..];
    }
  }

  /** `[a, b].sort().join(":")` */
  function PairKey(a: string, b: string): string {
    if LexLe(a, b) then a + ":" + b else b + ":" + a
  }

  lemma PairKeyNamesThePair(a: string, b: string, c: string, d: string)
    requires ':' !in a && ':' !in b && ':' !in c && ':' !in d
    ensures PairKey(a, b) == PairKey(c, d) <==> (a == c && b == d) || (a == d && b == c)
  {
    LexLeIsAntisymmetric(a, b);
    LexLeIsAntisymmetric(c, d);
    if PairKey(a, b) == PairKey(c, d) {
      var (x, y) := if LexLe(a, b) then (a, b) else (b, a);
      var (z, w) := if LexLe(c, d) then (c, d) else (d, c);
      FirstSeparatorIsUnique(x, y, z, w, ':');
    }
  }

  // ------------------------------------------------------------ what a field contributes

  predicate HasModel(models: seq<Model>, name: string) {
    exists m :: m in models && m.name == name
  }

  /** Some model of that name holds a list of `target`. */
  predicate ListsTarget(m: Model, target: string) {
    exists f :: f in m.fields && f.isList && f.typ == target
  }

  /** The first model of the name, as `find` returns it. */
  function Find(models: seq<Model>, name: string): (r: Option<Model>)
    ensures r.Some? <==> HasModel(models, name)
    ensures r.Some? ==> r.value in models && r.value.name == name
  {
    if models == [] then None
    else if models[0].name == name then Some(models[0])
    else
      assert models == [models[0]] + models[1..];
      Find(models[1..], name)
  }

  datatype Item = Item(model: Model, field: Field)

  /** The field refers to another model. */
  predicate RefersAway(models: seq<Model>, i: Item) {
    HasModel(models, i.field.typ) && i.field.typ != i.model.name
  }

  /** Both sides hold a list of the other. */
  predicate IsMutual(models: seq<Model>, i: Item) {
    && RefersAway(models, i) && i.field.isList
    && ListsTarget(Find(models, i.field.typ).value, i.model.name)
  }

  function KeyOf(i: Item): string {
    PairKey(i.model.name, i.field.typ)
  }

  function SeenAfter(models: seq<Model>, seen: set<string>, i: Item): set<string> {
    if IsMutual(models, i) then seen + {KeyOf(i)} else seen
  }

  function Contribution(models: seq<Model>, seen: set<string>, i: Item): seq<Relation> {
    if IsMutual(models, i) then
      if KeyOf(i) in seen then [] else [Relation(i.model.name, i.field.typ, ManyToMany, i.field.name)]
    else if RefersAway(models, i) && !i.field.isList then
      [Relation(i.model.name, i.field.typ, OneToMany, i.field.name)]
    else []
  }

  function Seeing(models: seq<Model>): (set<string>, Item) -> set<string> {
    (seen, i) => SeenAfter(models, seen, i)
  }

  function Contributing(models: seq<Model>): (set<string>, Item) -> seq<Relation> {
    (seen, i) => Contribution(models, seen, i)
  }

  function ItemsOf(m: Model): seq<Item> {
    Mapped(m.fields, (f: Field) => Item(m, f))
  }

  /** Every field of every model, in source order. */
  function Items(models: seq<Model>): seq<Item> {
    if models == [] then [] else Items(models[..|models| - 1]) + ItemsOf(models[|models| - 1])
  }

  function Seen(models: seq<Model>, items: seq<Item>): set<string> {
    Run({}, items, Seeing(models))
  }

  function Relations(models: seq<Model>, items: seq<Item>): seq<Relation> {
    Emitted({}, items, Seeing(models), Contributing(models))
  }

  // ------------------------------------------------------------ the loop

  method InferRelations(models: seq<Model>) returns (relations: seq<Relation>)
    ensures relations == Relations(models, Items(models))
  {
    relations := [];
    var seenManyToMany: set<string> := {};
    for m := 0 to |models|
      invariant relations == Relations(models, Items(models[..m]))
      invariant seenManyToMany == Seen(models, Items(models[..m]))
    {
      relations, seenManyToMany := VisitModel(models, models[m], Items(models[..m]), relations, seenManyToMany);
      assert models[..m + 1][..m] == models[..m];
    }
    assert models[..|models|] == models;
  }

  /** The loop over a model's fields; `done` are the fields of the models before it. */
  method VisitModel(models: seq<Model>, model: Model, ghost done: seq<Item>, before: seq<Relation>, seenBefore: set<string>)
    returns (relations: seq<Relation>, seen: set<string>)
    requires before == Relations(models, done) && seenBefore == Seen(models, done)
    ensures relations == Relations(models, done + ItemsOf(model))
    ensures seen == Seen(models, done + ItemsOf(model))
  {
    relations, seen := before, seenBefore;
    ghost var all := ItemsOf(model);
    assert done + all[..0] == done;
    for k := 0 to |model.fields|
      invariant relations == Relations(models, done + all[..k])
      invariant seen == Seen(models, done + all[..k])
    {
      assert done + all[..k + 1] == done + all[..k] + [Item(model, model.fields[k])];
      relations, seen := VisitField(models, done + all[..k], model, model.fields[k], relations, seen);
    }
    assert all[..|model.fields|] == all;
  }

  /** The body of the loop over a model's fields; `done` are the fields before this one. */
  method VisitField(models: seq<Model>, ghost done: seq<Item>, model: Model, field: Field,
                    relations: seq<Relation>, seen: set<string>)
    returns (extended: seq<Relation>, seenAfter: set<string>)
    requires relations == Relations(models, done) && seen == Seen(models, done)
    ensures extended == Relations(models, done + [Item(model, field)])
    ensures seenAfter == Seen(models, done + [Item(model, field)])
  {
    NextItem(models, done, Item(model, field));
    extended, seenAfter := relations, seen;
    if !HasModel(models, field.typ) || field.typ == model.name { return; }
    var otherModel := Find(models, field.typ).value;
    var otherSideHasList := ListsTarget(otherModel, model.name);
    if field.isList && otherSideHasList {
      var key := PairKey(model.name, otherModel.name);
      if key in seen { return; }
      seenAfter := seen + {key};
      extended := relations + [Relation(model.name, otherModel.name, ManyToMany, field.name)];
      return;
    }
    if !field.isList {
      extended := relations + [Relation(model.name, otherModel.name, OneToMany, field.name)];
    }
  }

  lemma NextItem(models: seq<Model>, items: seq<Item>, item: Item)
    ensures Seen(models, items + [item]) == SeenAfter(models, Seen(models, items), item)
    ensures Relations(models, items + [item]) == Relations(models, items) + Contribution(models, Seen(models, items), item)
  {
    assert (items + [item])[..|items|] == items;
  }

  /** The relation is the field's own: its model, its type and its name. */
  predicate ComesFrom(r: Relation, models: seq<Model>, i: Item) {
    && r.from == i.model.name && r.to == i.field.typ && r.fieldName == i.field.name
    && i.field.typ != i.model.name && (exists m :: m in models && m.name == i.field.typ)
    && (r.kind == ManyToMany <==> IsMutual(models, i))
    && (r.kind == ManyToMany <==> i.field.isList)
  }

  lemma {:induction false} RelationsComeFromFields(models: seq<Model>, items: seq<Item>, r: Relation)
    requires r in Relations(models, items)
    ensures exists i :: i in items && ComesFrom(r, models, i)
  {
    var n := |items| - 1;
    assert items == items[..n] + [items[n]];
    NextItem(models, items[..n], items[n]);
    if r in Relations(models, items[..n]) {
      RelationsComeFromFields(models, items[..n], r);
    } else {
      assert ComesFrom(r, models, items[n]);
    }
  }

  // ------------------------------------------------------------ one-to-many relations

  function OfKind(relations: seq<Relation>, kind: Kind): seq<Relation> {
    Collected(relations, (r: Relation) => if r.kind == kind then Some(r) else None)
  }

  /** A single reference to another model. */
  function Reference(models: seq<Model>, i: Item): Option<Relation> {
    if (exists m :: m in models && m.name == i.field.typ) && i.field.typ != i.model.name && !i.field.isList
    then Some(Relation(i.model.name, i.field.typ, OneToMany, i.field.name))
    else None
  }

  function References(models: seq<Model>, items: seq<Item>): seq<Relation> {
    Collected(items, (i: Item) => Reference(models, i))
  }

  lemma {:induction false} OfKindConcat(a: seq<Relation>, b: seq<Relation>, kind: Kind)
    ensures OfKind(a + b, kind) == OfKind(a, kind) + OfKind(b, kind)
  {
    if b == [] {
      assert a + b == a;
    } else {
      var n := |b| - 1;
      OfKindConcat(a, b[..n], kind);
      assert (a + b)[..|a| + n] == a + b[..n];
    }
  }

  lemma OfKindOne(r: Relation, kind: Kind)
    ensures OfKind([r], kind) == if r.kind == kind then [r] else []
  {
    assert [r][..0] == [];
    assert OfKind([r][..0], kind) == [];
  }

  lemma ContributedReference(models: seq<Model>, seen: set<string>, i: Item)
    ensures OfKind(Contribution(models, seen, i), OneToMany) ==
            if Reference(models, i).Some? then [Reference(models, i).value] else []
  {
    var c := Contribution(models, seen, i);
    if c != [] {
      OfKindOne(c[0], OneToMany);
      assert c == [c[0]];
    }
  }

  lemma {:induction false} OneToManysAreCollected(models: seq<Model>, items: seq<Item>)
    ensures OfKind(Relations(models, items), OneToMany) == References(models, items)
  {
    if items != [] {
      var n := |items| - 1;
      OneToManysAreCollected(models, items[..n]);
      assert items == items[..n] + [items[n]];
      NextItem(models, items[..n], items[n]);
      OfKindConcat(Relations(models, items[..n]), Contribution(models, Seen(models, items[..n]), items[n]), OneToMany);
      ContributedReference(models, Seen(models, items[..n]), items[n]);
    }
  }

  /** The one-to-many relations in order come one each from these fields: those that are no
      list and whose type is the name of another model. A reference to the own model gives none. */
  lemma OneToManysAreReferences(models: seq<Model>, items: seq<Item>) returns (at: seq<nat>)
    ensures var relations := OfKind(Relations(models, items), OneToMany);
            && |at| == |relations| && (forall i, j :: 0 <= i < j < |at| ==> at[i] < at[j])
            && (forall i :: 0 <= i < |at| ==> at[i] < |items|)
            && forall i :: 0 <= i < |at| ==>
                 var item := items[at[i]];
                 relations[i] == Relation(item.model.name, item.field.typ, OneToMany, item.field.name)
    ensures forall k :: 0 <= k < |items| ==>
              (k in at <==> && !items[k].field.isList && items[k].field.typ != items[k].model.name
                            && exists m :: m in models && m.name == items[k].field.typ)
  {
    OneToManysAreCollected(models, items);
    var reference := (i: Item) => Reference(models, i);
    at := CollectedFrom(items, reference);
    assert forall k :: 0 <= k < |items| ==> reference(items[k]) == Reference(models, items[k]);
  }

  // ------------------------------------------------------------ many-to-many relations

  function Linking(relations: seq<Relation>, key: string): nat {
    if relations == [] then 0
    else
      var r := relations[|relations| - 1];
      Linking(relations[..|relations| - 1], key) + if r.kind == ManyToMany && PairKey(r.from, r.to) == key then 1 else 0
  }

  /** How many many-to-many relations with the key one field contributes. */
  lemma ContributionLinks(models: seq<Model>, before: seq<Relation>, seen: set<string>, i: Item, key: string)
    ensures Linking(before + Contribution(models, seen, i), key) ==
            Linking(before, key) + if IsMutual(models, i) && KeyOf(i) == key && key !in seen then 1 else 0
  {
    var c := Contribution(models, seen, i);
    if c == [] {
      assert before + c == before;
    } else {
      assert (before + c)[..|before + c| - 1] == before;
    }
  }

  /** A pair is linked once when some field has shown it to be mutual, and never otherwise. */
  lemma {:induction false} LinkedOnceWhenSeen(models: seq<Model>, items: seq<Item>, key: string)
    ensures Linking(Relations(models, items), key) == if key in Seen(models, items) then 1 else 0
  {
    if items != [] {
      var n := |items| - 1;
      LinkedOnceWhenSeen(models, items[..n], key);
      assert items == items[..n] + [items[n]];
      NextItem(models, items[..n], items[n]);
      ContributionLinks(models, Relations(models, items[..n]), Seen(models, items[..n]), items[n], key);
    }
  }

  lemma SeenWithOneMore(models: seq<Model>, items: seq<Item>, item: Item, key: string)
    ensures key in Seen(models, items + [item]) <==>
            key in Seen(models, items) || (IsMutual(models, item) && KeyOf(item) == key)
  {
    NextItem(models, items, item);
  }

  lemma {:induction false} SeenExactly(models: seq<Model>, items: seq<Item>, key: string)
    ensures key in Seen(models, items) <==> exists i :: i in items && IsMutual(models, i) && KeyOf(i) == key
  {
    if items != [] {
      var n := |items| - 1;
      SeenExactly(models, items[..n], key);
      assert items == items[..n] + [items[n]];
      SeenWithOneMore(models, items[..n], items[n], key);
    }
  }

  predicate DistinctNames(models: seq<Model>) {
    forall i, j :: 0 <= i < j < |models| ==> models[i].name != models[j].name
  }

  predicate WordNames(models: seq<Model>) {
    forall m :: m in models ==> ':' !in m.name
  }

  lemma {:induction false} ItemsAreFields(models: seq<Model>, i: Item)
    ensures i in Items(models) <==> i.model in models && i.field in i.model.fields
  {
    if models != [] {
      var n := |models| - 1;
      ItemsAreFields(models[..n], i);
      assert models == models[..n] + [models[n]];
      assert i in ItemsOf(models[n]) <==> i.model == models[n] && i.field in i.model.fields by {
        if i.model == models[n] && i.field in i.model.fields {
          var k :| 0 <= k < |i.model.fields| && i.model.fields[k] == i.field;
          assert ItemsOf(models[n])[k] == i;
        }
      }
    }
  }

  lemma FindIsTheModel(models: seq<Model>, m: Model)
    requires DistinctNames(models) && m in models
    ensures Find(models, m.name) == Some(m)
  {
    var r := Find(models, m.name).value;
    var i :| 0 <= i < |models| && models[i] == m;
    var j :| 0 <= j < |models| && models[j] == r;
  }

  /** Two models hold lists of each other. */
  predicate Mutual(a: Model, b: Model) {
    && (exists f :: f in a.fields && f.isList && f.typ == b.name)
    && (exists f :: f in b.fields && f.isList && f.typ == a.name)
  }

  /** Each pair of different models is linked by exactly one many-to-many relation when both
      hold a list of the other, and by none otherwise. */
  lemma ManyToManyExactlyWhenMutual(models: seq<Model>, a: Model, b: Model)
    requires DistinctNames(models) && WordNames(models)
    requires a in models && b in models && a != b
    ensures Linking(Relations(models, Items(models)), PairKey(a.name, b.name)) == if Mutual(a, b) then 1 else 0
  {
    var key := PairKey(a.name, b.name);
    DifferentNames(models, a, b);
    LinkedOnceWhenSeen(models, Items(models), key);
    SeenExactly(models, Items(models), key);
    if i :| i in Items(models) && IsMutual(models, i) && KeyOf(i) == key {
      MutualItemShowsPair(models, i, a, b);
    }
    if Mutual(a, b) {
      var f :| f in a.fields && f.isList && f.typ == b.name;
      ItemsAreFields(models, Item(a, f));
      FindIsTheModel(models, b);
      assert IsMutual(models, Item(a, f));
    }
  }

  lemma DifferentNames(models: seq<Model>, a: Model, b: Model)
    requires DistinctNames(models) && a in models && b in models && a != b
    ensures a.name != b.name
  {
    var i :| 0 <= i < |models| && models[i] == a;
    var j :| 0 <= j < |models| && models[j] == b;
  }

  lemma MutualItemShowsPair(models: seq<Model>, i: Item, a: Model, b: Model)
    requires DistinctNames(models) && WordNames(models)
    requires a in models && b in models
    requires i in Items(models) && IsMutual(models, i) && KeyOf(i) == PairKey(a.name, b.name)
    ensures Mutual(a, b)
  {
    ItemsAreFields(models, i);
    var other := Find(models, i.field.typ).value;
    PairKeyNamesThePair(i.model.name, i.field.typ, a.name, b.name);
    FindIsTheModel(models, a);
    FindIsTheModel(models, b);
    FindIsTheModel(models, i.model);
    FindIsTheModel(models, other);
  }

  // ------------------------------------------------------------ the diagram

  function RelationLine(r: Relation): string {
    "  " + r.from + (if r.kind == ManyToMany then " }o--o{ " else " }o--|| ") + r.to + " : " + r.fieldName
  }

  function FieldLine(f: Field): string {
    "    " + f.typ + " " + f.name
  }

  function ModelLines(models: seq<Model>): seq<string> {
    if models == [] then []
    else
      var m := models[|models| - 1];
      ModelLines(models[..|models| - 1]) + ["  " + m.name + " {"] + Mapped(m.fields, FieldLine) + ["  }"]
  }

  method RenderMermaid(models: seq<Model>, relations: seq<Relation>) returns (text: string)
    ensures text == Join(DiagramLines(models, relations), "\n")
  {
    var lines: seq<string> := ["erDiagram"];
    for m := 0 to |models|
      invariant lines == ["erDiagram"] + ModelLines(models[..m])
    {
      var model := models[m];
      ghost var head := lines + ["  " + model.name + " {"];
      lines := lines + ["  " + model.name + " {"];
      for k := 0 to |model.fields|
        invariant lines == head + Mapped(model.fields, FieldLine)[..k]
      {
        lines := lines + ["    " + model.fields[k].typ + " " + model.fields[k].name];
      }
      lines := lines + ["  }"];
      assert models[..m + 1][..m] == models[..m];
      assert Mapped(model.fields, FieldLine)[..|model.fields|] == Mapped(model.fields, FieldLine);
    }
    assert models[..|models|] == models;
    ghost var front := lines;
    for k := 0 to |relations|
      invariant lines == front + Mapped(relations, RelationLine)[..k]
    {
      var rel := relations[k];
      if rel.kind == ManyToMany {
        lines := lines + ["  " + rel.from + " }o--o{ " + rel.to + " : " + rel.fieldName];
      } else {
        lines := lines + ["  " + rel.from + " }o--|| " + rel.to + " : " + rel.fieldName];
      }
    }
    assert Mapped(relations, RelationLine)[..|relations|] == Mapped(relations, RelationLine);
    text := Join(lines, "\n");
  }

  function DiagramLines(models: seq<Model>, relations: seq<Relation>): seq<string> {
    ["erDiagram"] + ModelLines(models) + Mapped(relations, RelationLine)
  }

  /** The block of a model: its name, type and name of each field in order, and the end. */
  ghost predicate IsBlock(lines: seq<string>, m: Model, at: nat) {
    && at + |m.fields| + 1 < |lines|
    && lines[at] == "  " + m.name + " {"
    && (forall k :: 0 <= k < |m.fields| ==> lines[at + 1 + k] == "    " + m.fields[k].typ + " " + m.fields[k].name)
    && lines[at + 1 + |m.fields|] == "  }"
  }

  lemma {:induction false} ModelLinesHoldBlock(models: seq<Model>, k: nat) returns (at: nat)
    requires k < |models|
    ensures IsBlock(ModelLines(models), models[k], at)
  {
    var n := |models| - 1;
    var front := ModelLines(models[..n]);
    if k < n {
      at := ModelLinesHoldBlock(models[..n], k);
    } else {
      at := |front|;
      assert ModelLines(models) == front + (["  " + models[n].name + " {"] + Mapped(models[n].fields, FieldLine) + ["  }"]);
    }
  }

  lemma BlockWithin(front: seq<string>, lines: seq<string>, back: seq<string>, m: Model, at: nat)
    requires IsBlock(lines, m, at)
    ensures IsBlock(front + lines + back, m, |front| + at)
  {
    var all := front + lines + back;
    assert forall k :: 0 <= k < |lines| ==> all[|front| + k] == lines[k];
    forall k | 0 <= k < |m.fields|
      ensures all[|front| + at + 1 + k] == "    " + m.fields[k].typ + " " + m.fields[k].name
    {
      assert all[|front| + (at + 1 + k)] == lines[at + 1 + k];
    }
    assert all[|front| + at] == lines[at] && all[|front| + (at + 1 + |m.fields|)] == lines[at + 1 + |m.fields|];
  }

  /** Every model has its block in the diagram. */
  lemma DiagramShowsModel(models: seq<Model>, relations: seq<Relation>, k: nat) returns (at: nat)
    requires k < |models|
    ensures IsBlock(DiagramLines(models, relations), models[k], at)
  {
    at := ModelLinesHoldBlock(models, k);
    BlockWithin(["erDiagram"], ModelLines(models), Mapped(relations, RelationLine), models[k], at);
    at := at + 1;
  }

  /** The diagram begins with its header and ends with the lines of the relations, in order; a
      mutual list has an arrow of its own. */
  lemma DiagramShowsRelations(models: seq<Model>, relations: seq<Relation>)
    ensures var lines, n := DiagramLines(models, relations), |relations|;
            && n < |lines| && lines[0] == "erDiagram"
            && forall i :: 0 <= i < n ==> lines[|lines| - n + i] == RelationLine(relations[i])
    ensures forall a, b, f :: RelationLine(Relation(a, b, OneToMany, f)) == "  " + a + " }o--|| " + b + " : " + f
    ensures forall a, b, f :: RelationLine(Relation(a, b, ManyToMany, f)) == "  " + a + " }o--o{ " + b + " : " + f
  {
  }

  predicate NoSpaces(r: Relation) {
    ' ' !in r.from && ' ' !in r.to && ' ' !in r.fieldName
  }

  function Arrow(kind: Kind): string {
    if kind == ManyToMany then "}o--o{" else "}o--||"
  }

  /** A text of four parts between single spaces, the last one free to contain spaces. */
  function Spaced(a: string, b: string, c: string, d: string): string {
    a + [' '] + (b + [' '] + (c + [' '] + d))
  }

  lemma SpacedIsInjective(a: string, b: string, c: string, d: string, a': string, b': string, c': string, d': string)
    requires ' ' !in a && ' ' !in b && ' ' !in c && ' ' !in a' && ' ' !in b' && ' ' !in c'
    requires Spaced(a, b, c, d) == Spaced(a', b', c', d')
    ensures a == a' && b == b' && c == c' && d == d'
  {
    FirstSeparatorIsUnique(a, b + [' '] + (c + [' '] + d), a', b' + [' '] + (c' + [' '] + d'), ' ');
    FirstSeparatorIsUnique(b, c + [' '] + d, b', c' + [' '] + d', ' ');
    FirstSeparatorIsUnique(c, d, c', d', ' ');
  }

  lemma LineIsSpaced(a: string, b: string, c: string, d: string)
    ensures "  " + a + (" " + b + " ") + c + " : " + d == "  " + Spaced(a, b, c, ": " + d)
  {
  }

  /** The line of a relation tells it apart from every other. */
  lemma RelationLineIsInjective(r: Relation, s: Relation)
    requires NoSpaces(r) && NoSpaces(s) && RelationLine(r) == RelationLine(s)
    ensures r == s
  {
    LineIsSpaced(r.from, Arrow(r.kind), r.to, r.fieldName);
    LineIsSpaced(s.from, Arrow(s.kind), s.to, s.fieldName);
    ArrowLines(r);
    ArrowLines(s);
    var x := Spaced(r.from, Arrow(r.kind), r.to, ": " + r.fieldName);
    var y := Spaced(s.from, Arrow(s.kind), s.to, ": " + s.fieldName);
    assert x == ("  " + x)[2..] && y == ("  " + y)[2..];
    SpacedIsInjective(r.from, Arrow(r.kind), r.to, ": " + r.fieldName, s.from, Arrow(s.kind), s.to, ": " + s.fieldName);
    assert r.fieldName == (": " + r.fieldName)[2..] && s.fieldName == (": " + s.fieldName)[2..];
    assert Arrow(ManyToMany)[4] != Arrow(OneToMany)[4];
  }

  lemma ArrowLines(r: Relation)
    ensures RelationLine(r) == "  " + r.from + (" " + Arrow(r.kind) + " ") + r.to + " : " + r.fieldName
    ensures ' ' !in Arrow(r.kind)
  {
    assert " " + Arrow(r.kind) + " " == if r.kind == ManyToMany then " }o--o{ " else " }o--|| ";
  }
}
