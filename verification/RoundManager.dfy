/** Product requirements and the tasks that satisfy them
    (src/python/pants/engine/round_manager.py). */
module RoundManagers {
  import opened Wrappers
  import opened Goals

  type Product = string

  datatype ProducerInfo = ProducerInfo(product: Product, taskType: TaskType, goal: string)

  /** One call made by a task's `prepare`: `require` and `require_data`, or
      `optional_product` and `optional_data`. */
  datatype Request = Require(product: Product) | Optionally(product: Product)

  /** The registered goals, and what each task type declares. */
  datatype World = World(
    registry: map<string, GoalDef>,
    products: TaskType -> seq<Product>,
    prepare: TaskType -> seq<Request>)
  {
    ghost predicate Valid() {
      forall g :: g in registry ==> registry[g].name == g && registry[g].Valid()
    }

    /** Task `n` of goal `g` is registered. */
    predicate HasTask(g: string, n: string) {
      g in registry && n in registry[g].types
    }

    function Type(g: string, n: string): TaskType
      requires HasTask(g, n)
    {
      registry[g].types[n]
    }

    ghost predicate Produces(g: string, n: string, p: Product) {
      HasTask(g, n) && p in products(Type(g, n))
    }

    ghost predicate IsProducer(i: ProducerInfo) {
      exists n :: Produces(i.goal, n, i.product) && Type(i.goal, n) == i.taskType
    }

    /** The products a task asks for, and those it tolerates not having. */
    ghost predicate Requires(t: TaskType, p: Product) {
      Require(p) in prepare(t) || Optionally(p) in prepare(t)
    }

    ghost predicate Tolerates(t: TaskType, p: Product) {
      Optionally(p) in prepare(t)
    }

    /** Some product the task insists on has no producer at all. */
    ghost predicate Unsatisfiable(t: TaskType) {
      exists p :: Requires(t, p) && !Tolerates(t, p) && !HasProducer(p)
    }

    ghost predicate HasProducer(p: Product) {
      exists g, n :: Produces(g, n, p)
    }
  }

  type Index = map<Product, set<ProducerInfo>>

  ghost predicate Indexes(w: World, index: Index) {
    forall p, i :: i in Members(index, p) <==> i.product == p && w.IsProducer(i)
  }

  /** Adds the producer infos of one task to the index. */
  method IndexTask(w: World, g: string, n: string, index: Index) returns (r: Index)
    requires w.HasTask(g, n)
    ensures forall p, i :: i in Members(r, p) <==>
              i in Members(index, p) || (i == ProducerInfo(p, w.Type(g, n), g) && w.Produces(g, n, p))
  {
    r := index;
    var t := w.Type(g, n);
    var ps := w.products(t);
    for k := 0 to |ps|
      invariant forall p, i :: i in Members(r, p) <==>
                  i in Members(index, p) || (i == ProducerInfo(p, t, g) && p in ps[..k])
    {
      r := r[ps[k] := Members(r, ps[k]) + {ProducerInfo(ps[k], t, g)}];
      assert ps[..k + 1] == ps[..k] + [ps[k]];
    }
    assert ps[..|ps|] == ps;
  }

  /** `_index_products`: every registered producer, by product, and nothing else. */
  method IndexProducts(w: World) returns (index: Index)
    ensures Indexes(w, index)
  {
    index := map[];
    var goals := w.registry.Keys;
    while goals != {}
      invariant goals <= w.registry.Keys
      invariant forall p, i :: i in Members(index, p) <==>
                  i.product == p && i.goal !in goals && w.IsProducer(i)
    {
      var g :| g in goals;
      var names := w.registry[g].types.Keys;
      while names != {}
        invariant names <= w.registry[g].types.Keys
        invariant forall p, i :: i in Members(index, p) <==>
                    i.product == p && w.IsProducer(i) &&
                    (i.goal !in goals ||
                     (i.goal == g && exists m :: m !in names && w.Produces(g, m, p) && w.Type(g, m) == i.taskType))
      {
        var n :| n in names;
        index := IndexTask(w, g, n, index);
        names := names - {n};
      }
      goals := goals - {g};
    }
  }

  class RoundManager {
    const world: World
    var dependencies: set<Product>
    var optionals: set<Product>
    var index: Option<Index>

    ghost predicate Valid()
      reads this
    {
      index.Some? ==> Indexes(world, index.value)
    }

    constructor (world: World)
      ensures this.world == world && Valid() && dependencies == {} && optionals == {}
    {
      this.world, dependencies, optionals, index := world, {}, {}, None;
    }

    /** `require`, `require_data`. */
    method Require(p: Product)
      modifies this`dependencies
      ensures dependencies == old(dependencies) + {p}
    {
      dependencies := dependencies + {p};
    }

    /** `optional_product`, `optional_data`. */
    method Optionally(p: Product)
      modifies this`dependencies, this`optionals
      ensures dependencies == old(dependencies) + {p} && optionals == old(optionals) + {p}
    {
      optionals := optionals + {p};
      Require(p);
    }

    /** Runs a task's `prepare` against a fresh manager. */
    method Prepare(t: TaskType)
      requires dependencies == {} && optionals == {}
      modifies this`dependencies, this`optionals
      ensures forall p :: p in dependencies <==> world.Requires(t, p)
      ensures forall p :: p in optionals <==> world.Tolerates(t, p)
    {
      var rs := world.prepare(t);
      for k := 0 to |rs|
        invariant forall p :: p in dependencies <==> Request.Require(p) in rs[..k] || Request.Optionally(p) in rs[..k]
        invariant forall p :: p in optionals <==> Request.Optionally(p) in rs[..k]
      {
        assert rs[..k + 1] == rs[..k] + [rs[k]];
        match rs[k]
        case Require(p) => Require(p);
        case Optionally(p) => Optionally(p);
      }
      assert rs[..|rs|] == rs;
    }

    /** `get_dependencies`: exactly the registered producers of the required products, or
        the missing-product error when a product that is not optional has none. */
    method GetDependencies() returns (r: Option<set<ProducerInfo>>)
      requires Valid()
      modifies this`index
      ensures Valid()
      ensures r.None? <==> exists p :: p in dependencies && p !in optionals && !world.HasProducer(p)
      ensures r.Some? ==> forall i :: i in r.value <==> i.product in dependencies && world.IsProducer(i)
    {
      var todo := dependencies;
      var infos: set<ProducerInfo> := {};
      while todo != {}
        invariant todo <= dependencies && Valid()
        invariant forall i :: i in infos <==> i.product in dependencies - todo && world.IsProducer(i)
        invariant forall p :: p in dependencies - todo && p !in optionals ==> world.HasProducer(p)
      {
        var p :| p in todo;
        if index.None? {
          var built := IndexProducts(world);
          index := Some(built);
        }
        var found := Members(index.value, p);
        if found == {} && p !in optionals {
          forall g, n
            ensures !world.Produces(g, n, p)
          {
            if world.Produces(g, n, p) {
              assert world.IsProducer(ProducerInfo(p, world.Type(g, n), g));
            }
          }
          return None;
        }
        if found != {} {
          var i :| i in found;
          assert world.IsProducer(i);
        }
        infos := infos + found;
        todo := todo - {p};
      }
      return Some(infos);
    }
  }
}
