/** The methods of a trait with its supertraits'
    (`trait_methods` of scripts/architecture-boundaries.py). */
module TraitMethods {
  import opened Graphs
  import opened Sums

  /** A `pub trait`: its own methods and the names after its colon. */
  datatype Trait = Trait(own: nat, supers: seq<string>)

  predicate Counted(name: string) {
    name != "Send" && name != "Sync"
  }

  /** `b` is a supertrait of `a` that counts. */
  ghost predicate Super(traits: map<string, Trait>, a: string, b: string) {
    a in traits && b in traits[a].supers && Counted(b)
  }

  ghost function Supers(traits: map<string, Trait>): (string, string) -> bool {
    (a, b) => Super(traits, a, b)
  }

  /** A name with no `pub trait` has no methods. */
  function Own(traits: map<string, Trait>): string -> int {
    name => if name in traits then traits[name].own else 0
  }

  /** Every name the walk from `root` can meet. */
  ghost function Names(traits: map<string, Trait>, root: string): set<string> {
    {root} + traits.Keys + set a, b | a in traits && b in traits[a].supers :: b
  }

  /** The traits reachable from `root` over supertraits, `root` included. */
  ghost function Reachable(traits: map<string, Trait>, root: string): set<string> {
    set b | b in Names(traits, root) && Reaches(Supers(traits), root, b)
  }

  /** The `seen` set that one walk shares. */
  class Seen {
    var names: set<string>

    constructor ()
      ensures names == {}
    {
      names := {};
    }
  }

  /** What a walk from `name` leaves in `seen`: `name` and traits reached from it,
      each with all its supertraits seen. */
  ghost predicate Walked(traits: map<string, Trait>, name: string, before: set<string>, after: set<string>) {
    && name !in before && before + {name} <= after
    && (forall b :: b in after - before ==> Reaches(Supers(traits), name, b))
    && (forall a, b :: a in after - before && Super(traits, a, b) ==> b in after)
  }

  /** The same in the middle of the loop over the supertraits of `name`: the
      supertraits of `name` itself are seen up to the `done` ones. */
  ghost predicate Walking(traits: map<string, Trait>, name: string, before: set<string>, now: set<string>, done: seq<string>) {
    && name !in before && before + {name} <= now
    && (forall b :: b in now - before ==> Reaches(Supers(traits), name, b))
    && (forall a, b :: a in now - before - {name} && Super(traits, a, b) ==> b in now)
    && (forall b :: b in done && Counted(b) ==> b in now)
  }

  lemma WalkSuper(traits: map<string, Trait>, name: string, before: set<string>, now: set<string>,
                  done: seq<string>, sup: string, after: set<string>)
    requires Walking(traits, name, before, now, done) && Super(traits, name, sup)
    requires Walked(traits, sup, now, after)
    ensures Walking(traits, name, before, after, done + [sup])
    ensures Sum(Own(traits), after - before) == Sum(Own(traits), now - before) + Sum(Own(traits), after - now)
  {
    forall b | b in after - now ensures Reaches(Supers(traits), name, b) {
      StepReaches(Supers(traits), name, sup, b);
    }
    SumDisjoint(Own(traits), now - before, after - now);
    assert (now - before) + (after - now) == after - before;
  }

  /** The walk: own methods, and own with those of the supertraits not yet seen. */
  method Walk(traits: map<string, Trait>, name: string, seen: Seen, ghost all: set<string>) returns (own: int, total: int)
    requires name !in seen.names && name in all
    requires forall a, b :: a in traits && b in traits[a].supers ==> b in all
    modifies seen
    ensures Walked(traits, name, old(seen.names), seen.names)
    ensures own == if name in traits then traits[name].own else 0
    ensures total == Sum(Own(traits), seen.names - old(seen.names))
    decreases all - seen.names
  {
    ghost var before := seen.names;
    seen.names := seen.names + {name};
    ReachesSelf(Supers(traits), name);
    assert seen.names - before == {} + {name};
    SumAdd(Own(traits), {}, name);
    if name !in traits {
      return 0, 0;
    }
    own, total := traits[name].own, traits[name].own;
    var supers := traits[name].supers;
    for i := 0 to |supers|
      invariant Walking(traits, name, before, seen.names, supers[..i])
      invariant total == Sum(Own(traits), seen.names - before)
    {
      var sup := supers[i];
      assert supers[..i + 1] == supers[..i] + [sup];
      if sup !in seen.names && Counted(sup) {
        ghost var now := seen.names;
        assert name !in all - now;
        var _, below := Walk(traits, sup, seen, all);
        total := total + below;
        WalkSuper(traits, name, before, now, supers[..i], sup, seen.names);
      }
    }
    assert supers[..|supers|] == supers;
  }

  /** `trait_methods` from a root: the total is the sum of the own methods of the
      traits reachable from it, each counted once whatever the cycles and diamonds. */
  method TraitMethods(traits: map<string, Trait>, root: string) returns (own: int, total: int)
    ensures own == if root in traits then traits[root].own else 0
    ensures total == Sum(Own(traits), Reachable(traits, root))
  {
    var seen := new Seen();
    own, total := Walk(traits, root, seen, Names(traits, root));
    WalkedIsReachable(traits, root, seen.names);
    assert seen.names - {} == seen.names;
  }

  lemma WalkedIsReachable(traits: map<string, Trait>, root: string, names: set<string>)
    requires Walked(traits, root, {}, names)
    ensures names == Reachable(traits, root)
  {
    forall b | Reaches(Supers(traits), root, b) ensures b in names {
      ClosedHoldsReached(Supers(traits), names, root, b);
    }
    forall b | b in names ensures b in Names(traits, root) {
      ClosedHoldsReached(Supers(traits), Names(traits, root), root, b);
    }
  }

  lemma LastEdge(traits: map<string, Trait>, p: seq<string>)
    requires IsPath(Supers(traits), p) && |p| > 1
    ensures Reaches(Supers(traits), p[0], p[|p| - 2]) && Super(traits, p[|p| - 2], p[|p| - 1])
  {
    var q := p[..|p| - 1];
    assert IsPath(Supers(traits), q) && q[0] == p[0] && q[|q| - 1] == p[|p| - 2];
    assert Supers(traits)(p[|p| - 2], p[|p| - 1]);
  }

  /** What is reachable: the root, every supertrait but `Send` and `Sync` of a reachable
      trait, and no other. */
  lemma ReachableExactly(traits: map<string, Trait>, root: string, b: string)
    ensures b in Reachable(traits, root) <==>
            b == root || (b != "Send" && b != "Sync"
                          && exists a :: a in Reachable(traits, root) && a in traits && b in traits[a].supers)
  {
    var next, names := Supers(traits), Names(traits, root);
    ReachesSelf(next, root);
    if b in Reachable(traits, root) && b != root {
      var p :| IsPath(next, p) && p[0] == root && p[|p| - 1] == b;
      LastEdge(traits, p);
      ClosedHoldsReached(next, names, root, p[|p| - 2]);
    }
    if a :| b != "Send" && b != "Sync" && a in Reachable(traits, root) && a in traits && b in traits[a].supers {
      assert Super(traits, a, b);
      ReachesStep(next, root, a, b);
    }
  }

  /** And they are the least such set. */
  lemma ReachableIsLeast(traits: map<string, Trait>, root: string, s: set<string>)
    requires root in s
    requires forall a, b :: a in s && a in traits && b in traits[a].supers && b != "Send" && b != "Sync" ==> b in s
    ensures Reachable(traits, root) <= s
  {
    forall b | b in Reachable(traits, root) ensures b in s {
      ClosedHoldsReached(Supers(traits), s, root, b);
    }
  }

  /** An edge back into what is already reachable, a cycle or the far side of a
      diamond, changes no total. */
  lemma ExtraEdgeCountsNothing(traits: map<string, Trait>, root: string, a: string, b: string)
    requires a in traits && a in Reachable(traits, root) && b in Reachable(traits, root)
    ensures var t := traits[a];
            var more := traits[a := t.(supers := t.supers + [b])];
            Sum(Own(more), Reachable(more, root)) == Sum(Own(traits), Reachable(traits, root))
  {
    var t := traits[a];
    var more := traits[a := t.(supers := t.supers + [b])];
    forall c | Reaches(Supers(traits), root, c) ensures Reaches(Supers(more), root, c) {
      var p :| IsPath(Supers(traits), p) && p[0] == root && p[|p| - 1] == c;
      assert IsPath(Supers(more), p);
    }
    ReachesSelf(Supers(traits), root);
    forall c | Reaches(Supers(more), root, c) ensures c in Reachable(traits, root) {
      forall x, y | x in Reachable(traits, root) && Super(more, x, y) ensures y in Reachable(traits, root) {
        if Super(traits, x, y) {
          ReachesStep(Supers(traits), root, x, y);
        }
      }
      ClosedHoldsReached(Supers(more), Reachable(traits, root), root, c);
    }
    forall c | c in Names(traits, root) ensures c in Names(more, root) {
      if c != root && c !in traits {
        var x :| x in traits && c in traits[x].supers;
        assert c in more[x].supers;
      }
    }
    assert Reachable(more, root) == Reachable(traits, root);
    SumSame(Own(more), Own(traits), Reachable(traits, root));
  }
}
