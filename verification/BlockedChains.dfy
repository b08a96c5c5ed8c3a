/** scripts/validate_progress.py: which missing inputs hold a checklist item back. */
module BlockedChains {
  import opened Wrappers
  import Text

  /** A checklist row; its status is `TODO`, `DONE`, `BLOCKED — ID, ID` or something invalid. */
  datatype Item = Item(id: string, packageId: string, status: string)

  const BLOCKED := "BLOCKED — "

  /** The checklist, and the item dependencies parsed for each id. */
  datatype Checklist = Checklist(items: seq<Item>, dependencies: map<string, seq<string>>) {

    function Deps(id: string): seq<string> {
      if id in dependencies then dependencies[id] else []
    }

    function Ids(): set<string> {
      set i | i in items :: i.id
    }

    /** The first row with the id. */
    function Find(id: string): (r: Option<Item>)
      ensures r.Some? ==> r.value in items && r.value.id == id && id in Ids()
      ensures id in Ids() ==> r.Some?
    {
      FindFrom(id, 0)
    }

    function FindFrom(id: string, from: nat): (r: Option<Item>)
      requires from <= |items|
      ensures r.Some? ==> r.value in items[from..] && r.value.id == id
      ensures r.None? ==> forall i | i in items[from..] :: i.id != id
      decreases |items| - from
    {
      if from == |items| then None
      else if items[from].id == id then Some(items[from])
      else FindFrom(id, from + 1)
    }

    predicate IsBlocked(id: string) {
      var item := Find(id);
      item.Some? && Text.StartsWith(item.value.status, BLOCKED)
    }

    /** A row that is neither `DONE` nor blocked. */
    predicate IsOpen(id: string) {
      var item := Find(id);
      item.Some? && item.value.status != "DONE" && !Text.StartsWith(item.value.status, BLOCKED)
    }

    /** The inputs a blocked row names. */
    function Named(id: string): (r: seq<string>)
      requires IsBlocked(id)
      ensures r != []
    {
      Text.Split(Find(id).value.status[|BLOCKED|..], ", ")
    }

    /** The inputs named are the pieces of the status after its prefix. */
    lemma NamedJoin(id: string)
      requires IsBlocked(id)
      ensures Find(id).value.status == "BLOCKED — " + Text.Join(Named(id), ", ")
    {
      var rest := Find(id).value.status[|BLOCKED|..];
      Text.JoinSplit(rest, ", ");
      assert Find(id).value.status == BLOCKED + rest;
      hide Text.Split, Text.Join;
    }

    /** `blocked_chain`, where every branch extends its own copy of `seen`. */
    predicate BlockedChain(id: string, seen: set<string>)
      decreases Ids() - seen
    {
      if IsBlocked(id) then true
      else if !IsOpen(id) || id in seen then false
      else
        exists d | d in Deps(id) :: BlockedChain(d, seen + {id})
    }

    /** `blocker_ids`. */
    function BlockerIds(id: string, seen: set<string>): set<string>
      decreases Ids() - seen
    {
      if IsBlocked(id) then set x | x in Named(id)
      else if !IsOpen(id) || id in seen then {}
      else
        set d, x | d in Deps(id) && x in BlockerIds(d, seen + {id}) :: x
    }

    /** Open rows outside `seen`, each depending on the next, that end in a blocked row. */
    ghost predicate BlockingPath(p: seq<string>, seen: set<string>) {
      && p != [] && IsBlocked(p[|p| - 1])
      && forall i | 0 <= i < |p| - 1 :: IsOpen(p[i]) && p[i] !in seen && p[i + 1] in Deps(p[i])
    }

    ghost predicate Blames(p: seq<string>, id: string, seen: set<string>, x: string) {
      BlockingPath(p, seen) && p[0] == id && x in Named(p[|p| - 1])
    }

    lemma {:induction false} BlameHasPath(id: string, seen: set<string>, x: string) returns (p: seq<string>)
      requires x in BlockerIds(id, seen)
      ensures Blames(p, id, seen, x)
      decreases Ids() - seen
    {
      if IsBlocked(id) {
        p := [id];
      } else {
        var d :| d in Deps(id) && x in BlockerIds(d, seen + {id});
        var q := BlameHasPath(d, seen + {id}, x);
        p := [id] + q;
        forall i | 0 <= i < |p| - 1 ensures IsOpen(p[i]) && p[i] !in seen && p[i + 1] in Deps(p[i]) {
          if i > 0 { assert IsOpen(q[i - 1]) && p[i] == q[i - 1] && p[i + 1] == q[i - 1 + 1]; }
        }
      }
    }

    /** A path may be shortened so that it never returns to its first row. */
    lemma {:induction false} WithoutReturn(p: seq<string>, id: string, seen: set<string>, x: string)
      returns (q: seq<string>)
      requires Blames(p, id, seen, x)
      ensures Blames(q, id, seen, x) && id !in q[1..]
      decreases |p|
    {
      if id in p[1..] {
        var k :| 1 <= k < |p| && p[k] == id;
        forall i | 0 <= i < |p[k..]| - 1
          ensures IsOpen(p[k..][i]) && p[k..][i] !in seen && p[k..][i + 1] in Deps(p[k..][i])
        {
          assert IsOpen(p[k + i]);
        }
        q := WithoutReturn(p[k..], id, seen, x);
      } else {
        q := p;
      }
    }

    lemma {:induction false} PathIsBlamed(p: seq<string>, id: string, seen: set<string>, x: string)
      requires Blames(p, id, seen, x)
      ensures x in BlockerIds(id, seen)
      decreases Ids() - seen
    {
      if !IsBlocked(id) {
        var q := WithoutReturn(p, id, seen, x);
        assert IsOpen(q[0]) && q[0] !in seen && q[0 + 1] in Deps(q[0]);
        forall i | 0 <= i < |q[1..]| - 1
          ensures IsOpen(q[1..][i]) && q[1..][i] !in seen + {id} && q[1..][i + 1] in Deps(q[1..][i])
        {
          assert IsOpen(q[i + 1]) && q[i + 1] in q[1..];
        }
        PathIsBlamed(q[1..], q[1], seen + {id}, x);
      }
    }

    /**
      The copied `seen` sets lose nothing: the inputs found are exactly those named by the
      blocked rows reachable through open rows, on cyclic registers too.
     */
    lemma BlockerIdsAreReachable(id: string, x: string)
      ensures x in BlockerIds(id, {}) <==> exists p :: Blames(p, id, {}, x)
    {
      if x in BlockerIds(id, {}) {
        var p := BlameHasPath(id, {}, x);
      }
      if exists p :: Blames(p, id, {}, x) {
        var p :| Blames(p, id, {}, x);
        PathIsBlamed(p, id, {}, x);
      }
    }

    lemma {:induction false} ChainIffBlockers(id: string, seen: set<string>)
      ensures BlockedChain(id, seen) <==> BlockerIds(id, seen) != {}
      decreases Ids() - seen
    {
      if IsBlocked(id) {
        assert Named(id)[0] in BlockerIds(id, seen);
      } else if IsOpen(id) && id !in seen {
        forall d | d in Deps(id) ensures BlockedChain(d, seen + {id}) <==> BlockerIds(d, seen + {id}) != {} {
          ChainIffBlockers(d, seen + {id});
        }
        if BlockedChain(id, seen) {
          var d :| d in Deps(id) && BlockedChain(d, seen + {id});
          var x :| x in BlockerIds(d, seen + {id});
          assert x in BlockerIds(id, seen);
        }
      }
    }

    /** `blocked_chain` holds exactly when open rows lead from the item to a blocked row. */
    lemma BlockedChainIsReachability(id: string)
      ensures BlockedChain(id, {}) <==> exists p :: BlockingPath(p, {}) && p[0] == id
    {
      ChainIffBlockers(id, {});
      if BlockedChain(id, {}) {
        var x :| x in BlockerIds(id, {});
        var p := BlameHasPath(id, {}, x);
      }
      if exists p :: BlockingPath(p, {}) && p[0] == id {
        var p :| BlockingPath(p, {}) && p[0] == id;
        PathIsBlamed(p, id, {}, Named(p[|p| - 1])[0]);
      }
    }
  }
}
