/** The depth-first search as the program runs it: closures over sets that change in place. */
module DependencyWalk {
  import opened Graphs
  import DepthFirst

  class Walk {
    var visiting: set<string>
    var visited: set<string>
    var trails: seq<seq<string>>

    ghost function State(): DepthFirst.Search
      reads this
    {
      DepthFirst.Search(visiting, visited, trails)
    }

    constructor ()
      ensures State() == DepthFirst.START
    {
      visiting, visited, trails := {}, {}, [];
    }

    method Visit(g: Graph, id: string, trail: seq<string>)
      requires id in g
      modifies this
      ensures State() == DepthFirst.Visit(g, id, trail, old(State()))
      decreases g.Keys - State().Seen()
    {
      if id in visiting {
        trails := trails + [trail + [id]];
        return;
      }
      if id in visited {
        return;
      }
      assert id in g.Keys - State().Seen();
      visiting := visiting + {id};
      ghost var entered := State();
      var ids := g[id];
      for k := 0 to |ids|
        invariant DepthFirst.VisitNext(g, ids, trail + [id], entered) == DepthFirst.VisitNext(g, ids[k..], trail + [id], State())
        invariant entered.Seen() <= State().Seen()
      {
        if ids[k] in g {
          Visit(g, ids[k], trail + [id]);
        }
      }
      visiting := visiting - {id};
      visited := visited + {id};
    }

    /** One search after another, from each of the roots. */
    method VisitAll(g: Graph, roots: seq<string>)
      modifies this
      ensures State() == DepthFirst.VisitRoots(g, roots, old(State()))
    {
      for k := 0 to |roots|
        invariant DepthFirst.VisitRoots(g, roots, old(State())) == DepthFirst.VisitRoots(g, roots[k..], State())
      {
        if roots[k] in g {
          Visit(g, roots[k], []);
        }
      }
    }
  }
}
