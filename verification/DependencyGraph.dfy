/** The release-graph walk of the license evidence: which packages belong to which release graph. */
module DependencyGraph {
  import opened Common
  import PackageNames

  /** A requirement text `packaging` accepted. `extras` is the sorted tuple of requested extras. */
  datatype Requirement = Requirement(name: string, extras: seq<string>, marker: Option<string>)

  /** The distribution index: canonical name to requirement texts; `None` is a text `packaging` rejects. */
  type Index = map<string, seq<Option<Requirement>>>

  /** The value of a marker (first argument) when `extra` is the second argument. */
  type MarkerEval = (string, string) -> bool

  /** A package as it is asked for: its canonical name and the extras asked for. */
  datatype Request = Request(name: string, extras: seq<string>)

  /** A root of the walk, with the release graph that declares it. */
  datatype Root = Root(request: Request, group: string)

  predicate Applies(eval: MarkerEval, requirement: Requirement, extras: seq<string>) {
    match requirement.marker
    case None => true
    case Some(marker) =>
      if extras == [] then eval(marker, "")
      else exists i :: 0 <= i < |extras| && eval(marker, extras[i])
  }

  function Target(requirement: Requirement): Request {
    Request(PackageNames.Canonical(requirement.name), requirement.extras)
  }

  /** Requirement `r` of a package leads on when the package is asked for with `extras`. */
  predicate Leads(eval: MarkerEval, r: Option<Requirement>, extras: seq<string>) {
    r.Some? && Applies(eval, r.value, extras)
  }

  /** Names visited once the walk returns from `request`, having started with `visited`. */
  function Visit(index: Index, eval: MarkerEval, request: Request, visited: set<string>): (result: set<string>)
    ensures visited <= result
    decreases index.Keys - visited, 0
  {
    if request.name in visited then visited
    else if request.name !in index then visited + {request.name}
    else Follow(index, eval, index[request.name], request.extras, visited + {request.name})
  }

  function Follow(index: Index, eval: MarkerEval, requires_: seq<Option<Requirement>>, extras: seq<string>,
                  visited: set<string>): (result: set<string>)
    ensures visited <= result
    decreases index.Keys - visited, |requires_|
  {
    if requires_ == [] then visited
    else
      var next := if Leads(eval, requires_[0], extras)
                  then Visit(index, eval, Target(requires_[0].value), visited)
                  else visited;
      Follow(index, eval, requires_[1..], extras, next)
  }

  /** Adds `group` to the tags of every name in `names`. */
  function Tag(membership: map<string, set<string>>, names: set<string>, group: string): map<string, set<string>> {
    map n | n in membership.Keys + names ::
      (if n in membership then membership[n] else {}) + (if n in names then {group} else {})
  }

  lemma TagNothing(membership: map<string, set<string>>, group: string)
    ensures Tag(membership, {}, group) == membership
  {
    forall n | n in membership
      ensures Tag(membership, {}, group)[n] == membership[n]
    {
      assert membership[n] + {} == membership[n];
    }
  }

  lemma TagOne(membership: map<string, set<string>>, name: string, group: string)
    ensures Tag(membership, {name}, group)
         == membership[name := (if name in membership then membership[name] else {}) + {group}]
  {
    var tagged := Tag(membership, {name}, group);
    forall n | n in membership && n != name
      ensures tagged[n] == membership[n]
    {
      assert membership[n] + {} == membership[n];
    }
  }

  lemma TagBoth(membership: map<string, set<string>>, a: set<string>, b: set<string>, group: string)
    ensures Tag(Tag(membership, a, group), b, group) == Tag(membership, a + b, group)
  {
    var once, both := Tag(membership, a, group), Tag(membership, a + b, group);
    var twice := Tag(once, b, group);
    assert twice.Keys == both.Keys;
    forall n | n in both
      ensures twice[n] == both[n]
    {
      if n in a || n in b {
        assert twice[n] == (if n in membership then membership[n] else {}) + {group};
      } else {
        assert twice[n] == membership[n];
      }
    }
  }

  /** The recursive walk, with the `membership` it shares and the `visited` set it grows. */
  class GraphWalk {
    var membership: map<string, set<string>>
    var visited: set<string>

    constructor ()
      ensures membership == map[] && visited == {}
    {
      membership, visited := map[], {};
    }

    method Walk(index: Index, eval: MarkerEval, packageName: string, group: string, extras: seq<string>)
      modifies this
      ensures visited == Visit(index, eval, Request(PackageNames.Canonical(packageName), extras), old(visited))
      ensures membership == Tag(old(membership), visited - old(visited), group)
      decreases index.Keys - visited
    {
      var name := PackageNames.Canonical(packageName);
      if name in visited {
        TagNothing(membership, group);
        assert visited - old(visited) == {};
        return;
      }
      visited := visited + {name};
      membership := membership[name := (if name in membership then membership[name] else {}) + {group}];
      TagOne(old(membership), name, group);
      assert visited - old(visited) == {name};
      if name !in index {
        return;
      }
      var requirements := index[name];
      for i := 0 to |requirements|
        invariant old(visited) + {name} <= visited
        invariant Follow(index, eval, requirements[i..], extras, visited)
               == Follow(index, eval, requirements, extras, old(visited) + {name})
        invariant membership == Tag(old(membership), visited - old(visited), group)
      {
        var requirement := requirements[i];
        assert requirements[i..][1..] == requirements[i + 1..];
        if requirement.None? || !Applies(eval, requirement.value, extras) {
          continue;
        }
        ghost var before := visited;
        Walk(index, eval, requirement.value.name, group, requirement.value.extras);
        TagBoth(old(membership), before - old(visited), visited - before, group);
        assert (before - old(visited)) + (visited - before) == visited - old(visited);
      }
    }

    /** `_dependency_graph_membership`: every root walks with a fresh visited set. */
    method Membership(index: Index, eval: MarkerEval, roots: seq<Root>)
      requires forall r :: r in roots ==> PackageNames.Canonical(r.request.name) == r.request.name
      modifies this
      ensures IsMembership(membership, index, eval, roots)
    {
      membership := map[];
      for k := 0 to |roots|
        invariant IsMembership(membership, index, eval, roots[..k])
      {
        visited := {};
        ghost var before := membership;
        Walk(index, eval, roots[k].request.name, roots[k].group, roots[k].request.extras);
        assert visited - {} == visited;
        MembershipStep(before, membership, index, eval, roots, k);
      }
      assert roots[..|roots|] == roots;
    }
  }

  /** Root `r` tags name `n`. */
  ghost predicate Tags(index: Index, eval: MarkerEval, r: Root, n: string) {
    n in Visit(index, eval, r.request, {})
  }

  ghost predicate Has(membership: map<string, set<string>>, n: string, g: string) {
    n in membership && g in membership[n]
  }

  /** `membership` holds exactly the tags its roots give, and no name without a tag. */
  ghost predicate IsMembership(membership: map<string, set<string>>, index: Index, eval: MarkerEval, roots: seq<Root>) {
    && (forall n, g :: Has(membership, n, g) <==> (exists r :: r in roots && r.group == g && Tags(index, eval, r, n)))
    && (forall n :: n in membership ==> membership[n] != {})
  }

  lemma MembershipStep(before: map<string, set<string>>, after: map<string, set<string>>,
                       index: Index, eval: MarkerEval, roots: seq<Root>, k: nat)
    requires k < |roots|
    requires IsMembership(before, index, eval, roots[..k])
    requires after == Tag(before, Visit(index, eval, roots[k].request, {}), roots[k].group)
    ensures IsMembership(after, index, eval, roots[..k + 1])
  {
    var root := roots[k];
    assert roots[..k + 1] == roots[..k] + [root];
    forall n, g
      ensures Has(after, n, g) <==> (exists r :: r in roots[..k + 1] && r.group == g && Tags(index, eval, r, n))
    {
      if Has(after, n, g) {
        if Has(before, n, g) {
          var r :| r in roots[..k] && r.group == g && Tags(index, eval, r, n);
          assert r in roots[..k + 1];
        } else {
          assert root in roots[..k + 1] && Tags(index, eval, root, n);
        }
      }
      if r :| r in roots[..k + 1] && r.group == g && Tags(index, eval, r, n) {
        if r in roots[..k] {
          assert Has(before, n, g);
        } else {
          assert r == root;
        }
      }
    }
  }

  // ---------------------------------------------------------------- reachability

  /** One hop of the graph: some requirement of `from`, applicable under its extras, asks for `to`. */
  ghost predicate Hop(index: Index, eval: MarkerEval, from: Request, to: Request) {
    from.name in index &&
    exists r :: r in index[from.name] && Leads(eval, r, from.extras) && Target(r.value) == to
  }

  ghost predicate IsPath(index: Index, eval: MarkerEval, path: seq<Request>) {
    && path != []
    && forall i :: 0 < i < |path| ==> Hop(index, eval, path[i - 1], path[i])
  }

  ghost predicate PathTo(index: Index, eval: MarkerEval, root: Request, name: string, path: seq<Request>) {
    IsPath(index, eval, path) && path[0] == root && path[|path| - 1].name == name
  }

  ghost predicate Reaches(index: Index, eval: MarkerEval, root: Request, name: string) {
    exists path :: PathTo(index, eval, root, name, path)
  }

  /** Soundness: whatever the walk adds has a path whose every hop was applicable under the extras
      carried by the hop before it. */
  lemma {:induction false} VisitHasPath(index: Index, eval: MarkerEval, request: Request, visited: set<string>,
                                        name: string)
      returns (path: seq<Request>)
    requires name in Visit(index, eval, request, visited) && name !in visited
    ensures PathTo(index, eval, request, name, path)
    decreases index.Keys - visited, 0
  {
    if name == request.name {
      path := [request];
    } else {
      path := FollowHasPath(index, eval, request, index[request.name], visited + {request.name}, name);
    }
  }

  lemma {:induction false} FollowHasPath(index: Index, eval: MarkerEval, from: Request, rest: seq<Option<Requirement>>,
                      visited: set<string>, name: string)
      returns (path: seq<Request>)
    requires from.name in index && forall r :: r in rest ==> r in index[from.name]
    requires name in Follow(index, eval, rest, from.extras, visited) && name !in visited
    ensures PathTo(index, eval, from, name, path)
    decreases index.Keys - visited, |rest|
  {
    var r := rest[0];
    var next := if Leads(eval, r, from.extras) then Visit(index, eval, Target(r.value), visited) else visited;
    if name in next {
      var tail := VisitHasPath(index, eval, Target(r.value), visited, name);
      assert r in rest;
      assert Hop(index, eval, from, tail[0]);
      path := [from] + tail;
      forall i | 0 < i < |path|
        ensures Hop(index, eval, path[i - 1], path[i])
      {
        if i > 1 {
          assert path[i - 1] == tail[i - 2] && path[i] == tail[i - 1];
        }
      }
    } else {
      path := FollowHasPath(index, eval, from, rest[1..], next, name);
    }
  }

  // ---------------------------------------------------------------- completeness

  /** `q` is the root or what some requirement of some package asks for. */
  ghost predicate Requested(index: Index, root: Request, q: Request) {
    q == root || exists p, r :: p in index && r in index[p] && r.Some? && Target(r.value) == q
  }

  /** However a package is asked for, the same requirements of it apply. */
  ghost predicate Uniform(index: Index, eval: MarkerEval, root: Request) {
    forall a, b, r | Requested(index, root, a) && Requested(index, root, b) && a.name == b.name && a.name in index :: (
      r in index[a.name] ==> Leads(eval, r, a.extras) == Leads(eval, r, b.extras))
  }

  /** Everything `n` can lead to under any extras it is asked for with lies in `names`. */
  ghost predicate ClosedAt(index: Index, eval: MarkerEval, root: Request, n: string, names: set<string>) {
    forall a, to :: Requested(index, root, a) && a.name == n && Hop(index, eval, a, to) ==> to.name in names
  }

  lemma {:induction false} VisitCloses(index: Index, eval: MarkerEval, root: Request, request: Request,
                                       visited: set<string>)
    requires Uniform(index, eval, root) && Requested(index, root, request)
    ensures request.name in Visit(index, eval, request, visited)
    ensures forall n :: n in Visit(index, eval, request, visited) - visited
              ==> ClosedAt(index, eval, root, n, Visit(index, eval, request, visited))
    decreases index.Keys - visited, 0
  {
    var result := Visit(index, eval, request, visited);
    if request.name in visited || request.name !in index {
    } else {
      var requirements := index[request.name];
      FollowCloses(index, eval, root, request, requirements, visited + {request.name});
      forall a, to | Requested(index, root, a) && a.name == request.name && Hop(index, eval, a, to)
        ensures to.name in result
      {
        var r :| r in requirements && Leads(eval, r, a.extras) && Target(r.value) == to;
        assert Leads(eval, r, request.extras);
      }
    }
  }

  lemma {:induction false} FollowCloses(index: Index, eval: MarkerEval, root: Request, from: Request,
                     rest: seq<Option<Requirement>>, visited: set<string>)
    requires Uniform(index, eval, root) && Requested(index, root, from)
    requires from.name in index && forall r :: r in rest ==> r in index[from.name]
    ensures forall r :: r in rest && Leads(eval, r, from.extras)
              ==> Target(r.value).name in Follow(index, eval, rest, from.extras, visited)
    ensures forall n :: n in Follow(index, eval, rest, from.extras, visited) - visited
              ==> ClosedAt(index, eval, root, n, Follow(index, eval, rest, from.extras, visited))
    decreases index.Keys - visited, |rest|
  {
    if rest != [] {
      var r := rest[0];
      var next := visited;
      if Leads(eval, r, from.extras) {
        assert r in rest;
        assert Requested(index, root, Target(r.value));
        VisitCloses(index, eval, root, Target(r.value), visited);
        next := Visit(index, eval, Target(r.value), visited);
      }
      FollowCloses(index, eval, root, from, rest[1..], next);
      assert forall q :: q in rest ==> q == r || q in rest[1..];
      var result := Follow(index, eval, rest, from.extras, visited);
      assert result == Follow(index, eval, rest[1..], from.extras, next);
      forall n | n in result - visited
        ensures ClosedAt(index, eval, root, n, result)
      {
        if n in next {
          assert ClosedAt(index, eval, root, n, next);
        }
      }
    }
  }

  /** Paths from the root ask only for requested packages and stay inside a closed set of names. */
  lemma {:induction false} PathStaysInside(index: Index, eval: MarkerEval, root: Request, path: seq<Request>,
                                           names: set<string>)
    requires IsPath(index, eval, path) && path[0] == root && root.name in names
    requires forall n :: n in names ==> ClosedAt(index, eval, root, n, names)
    ensures forall i :: 0 <= i < |path| ==> Requested(index, root, path[i]) && path[i].name in names
  {
    var k := 0;
    while k + 1 < |path|
      invariant k < |path|
      invariant forall i :: 0 <= i <= k ==> Requested(index, root, path[i]) && path[i].name in names
    {
      assert Hop(index, eval, path[k], path[k + 1]);
      assert ClosedAt(index, eval, root, path[k].name, names);
      k := k + 1;
    }
  }

  /** The walk from `root` finds exactly the names that are reachable. */
  ghost predicate WalkExact(index: Index, eval: MarkerEval, root: Request) {
    forall n :: n in Visit(index, eval, root, {}) <==> Reaches(index, eval, root, n)
  }

  /** Every graph, cyclic ones included: the walk is always sound. */
  lemma WalkSound(index: Index, eval: MarkerEval, root: Request)
    ensures forall n :: n in Visit(index, eval, root, {}) ==> Reaches(index, eval, root, n)
  {
    forall n | n in Visit(index, eval, root, {})
      ensures Reaches(index, eval, root, n)
    {
      var path := VisitHasPath(index, eval, root, {}, n);
    }
  }

  /** Where the extras a package is asked for with never matter, the walk is exact. */
  lemma UniformWalkExact(index: Index, eval: MarkerEval, root: Request)
    requires Uniform(index, eval, root)
    ensures WalkExact(index, eval, root)
  {
    WalkSound(index, eval, root);
    VisitCloses(index, eval, root, root, {});
    var names := Visit(index, eval, root, {});
    forall n | Reaches(index, eval, root, n)
      ensures n in names
    {
      var path :| PathTo(index, eval, root, n, path);
      PathStaysInside(index, eval, root, path, names);
    }
  }

  // ---------------------------------------------------------------- one graph

  const NOTHING: map<string, seq<string>> := map[]

  /** The walk, with the extras each name was first visited with. */
  function Firsts(index: Index, eval: MarkerEval, request: Request, visited: map<string, seq<string>>)
      : (result: map<string, seq<string>>)
    ensures result.Keys == Visit(index, eval, request, visited.Keys)
    ensures forall n :: n in visited ==> n in result && result[n] == visited[n]
    decreases index.Keys - visited.Keys, 0
  {
    if request.name in visited then visited
    else
      var entered := visited[request.name := request.extras];
      assert entered.Keys == visited.Keys + {request.name};
      if request.name !in index then entered
          else FollowFirsts(index, eval, index[request.name], request.extras, entered)
  }

  function FollowFirsts(index: Index, eval: MarkerEval, requires_: seq<Option<Requirement>>, extras: seq<string>,
                        visited: map<string, seq<string>>)
      : (result: map<string, seq<string>>)
    ensures result.Keys == Follow(index, eval, requires_, extras, visited.Keys)
    ensures forall n :: n in visited ==> n in result && result[n] == visited[n]
    decreases index.Keys - visited.Keys, |requires_|
  {
    if requires_ == [] then visited
    else
      var next := if Leads(eval, requires_[0], extras)
                  then Firsts(index, eval, Target(requires_[0].value), visited)
                  else visited;
      FollowFirsts(index, eval, requires_[1..], extras, next)
  }

  /** What a name leads to under the extras it was first visited with has been visited as well. */
  ghost predicate FirstClosedAt(index: Index, eval: MarkerEval, n: string, firsts: map<string, seq<string>>,
                                names: set<string>)
    requires n in firsts
  {
    forall to :: Hop(index, eval, Request(n, firsts[n]), to) ==> to.name in names
  }

  lemma {:induction false} FirstsClose(index: Index, eval: MarkerEval, request: Request,
                                       visited: map<string, seq<string>>)
    ensures request.name in Firsts(index, eval, request, visited)
    ensures var result := Firsts(index, eval, request, visited);
            forall n :: n in result && n !in visited ==> FirstClosedAt(index, eval, n, result, result.Keys)
    decreases index.Keys - visited.Keys, 0
  {
    if request.name !in visited && request.name in index {
      var entered := visited[request.name := request.extras];
      assert entered.Keys == visited.Keys + {request.name};
      FollowFirstsClose(index, eval, request, index[request.name], entered);
    }
  }

  lemma {:induction false} FollowFirstsClose(index: Index, eval: MarkerEval, from: Request,
                                             rest: seq<Option<Requirement>>, visited: map<string, seq<string>>)
    requires from.name in index && forall r :: r in rest ==> r in index[from.name]
    ensures forall r :: r in rest && Leads(eval, r, from.extras)
              ==> Target(r.value).name in FollowFirsts(index, eval, rest, from.extras, visited)
    ensures var result := FollowFirsts(index, eval, rest, from.extras, visited);
            forall n :: n in result && n !in visited ==> FirstClosedAt(index, eval, n, result, result.Keys)
    decreases index.Keys - visited.Keys, |rest|
  {
    if rest != [] {
      var r := rest[0];
      var next := visited;
      if Leads(eval, r, from.extras) {
        FirstsClose(index, eval, Target(r.value), visited);
        next := Firsts(index, eval, Target(r.value), visited);
      }
      FollowFirstsClose(index, eval, from, rest[1..], next);
      assert forall q :: q in rest ==> q == r || q in rest[1..];
      var result := FollowFirsts(index, eval, rest, from.extras, visited);
      assert result == FollowFirsts(index, eval, rest[1..], from.extras, next);
      forall n | n in result && n !in visited
        ensures FirstClosedAt(index, eval, n, result, result.Keys)
      {
        if n in next {
          assert FirstClosedAt(index, eval, n, next, next.Keys);
        }
      }
    }
  }

  /** A reachable package is asked for with extras under which one more of its requirements applies than under those
      it was first visited with, and the walk visits what that requirement asks for nowhere else. */
  ghost predicate Loses(index: Index, eval: MarkerEval, root: Request, path: seq<Request>, r: Option<Requirement>) {
    var firsts := Firsts(index, eval, root, NOTHING);
    && IsPath(index, eval, path) && path[0] == root
    && (var q := path[|path| - 1];
        && q.name in firsts && q.name in index && r in index[q.name]
        && Leads(eval, r, q.extras) && !Leads(eval, r, firsts[q.name]) && Target(r.value).name !in firsts)
  }

  /** Exactly when one given graph is walked exactly. */
  lemma WalkExactIff(index: Index, eval: MarkerEval, root: Request)
    ensures WalkExact(index, eval, root) <==> forall path, r :: !Loses(index, eval, root, path, r)
  {
    var firsts := Firsts(index, eval, root, NOTHING);
    assert NOTHING.Keys == {};
    if WalkExact(index, eval, root) {
      forall path, r ensures !Loses(index, eval, root, path, r) {
        if Loses(index, eval, root, path, r) {
          LossReached(index, eval, root, path, r);
        }
      }
    } else if forall path, r :: !Loses(index, eval, root, path, r) {
      WalkSound(index, eval, root);
      FirstsClose(index, eval, root, NOTHING);
      forall n | Reaches(index, eval, root, n) ensures n in firsts {
        var path :| PathTo(index, eval, root, n, path);
        PathVisited(index, eval, root, path);
      }
    }
  }

  lemma LossReached(index: Index, eval: MarkerEval, root: Request, path: seq<Request>, r: Option<Requirement>)
    requires Loses(index, eval, root, path, r)
    ensures Reaches(index, eval, root, Target(r.value).name)
    ensures Target(r.value).name !in Visit(index, eval, root, {})
  {
    var q, longer := path[|path| - 1], path + [Target(r.value)];
    assert NOTHING.Keys == {};
    assert Hop(index, eval, q, Target(r.value));
    forall i | 0 < i < |longer| ensures Hop(index, eval, longer[i - 1], longer[i]) {
      assert i < |path| ==> Hop(index, eval, path[i - 1], path[i]);
    }
    assert PathTo(index, eval, root, Target(r.value).name, longer);
  }

  lemma {:induction false} PathVisited(index: Index, eval: MarkerEval, root: Request, path: seq<Request>)
    requires IsPath(index, eval, path) && path[0] == root && forall more, r :: !Loses(index, eval, root, more, r)
    requires var firsts := Firsts(index, eval, root, NOTHING);
             root.name in firsts && forall n :: n in firsts ==> FirstClosedAt(index, eval, n, firsts, firsts.Keys)
    ensures path[|path| - 1].name in Firsts(index, eval, root, NOTHING)
  {
    var firsts := Firsts(index, eval, root, NOTHING);
    if |path| > 1 {
      var init := path[..|path| - 1];
      PathVisited(index, eval, root, init);
      var q, last := init[|init| - 1], path[|path| - 1];
      assert q == path[|path| - 2] && Hop(index, eval, q, last);
      var r :| r in index[q.name] && Leads(eval, r, q.extras) && Target(r.value) == last;
      if Leads(eval, r, firsts[q.name]) {
        assert Hop(index, eval, Request(q.name, firsts[q.name]), last);
      } else {
        assert !Loses(index, eval, root, init, r);
      }
    }
  }

  // ---------------------------------------------------------------- extras

  /** The marker gives the same value for every extra, the absent one included. */
  ghost predicate Blind(eval: MarkerEval, marker: string) {
    forall e :: eval(marker, e) == eval(marker, "")
  }

  ghost predicate MarkersWithin(index: Index, markers: set<string>) {
    forall p, r :: p in index && r in index[p] && r.Some? && r.value.marker.Some? ==> r.value.marker.value in markers
  }

  lemma BlindIsUniform(index: Index, eval: MarkerEval, root: Request, markers: set<string>)
    requires MarkersWithin(index, markers) && forall k :: k in markers ==> Blind(eval, k)
    ensures Uniform(index, eval, root)
  {
    forall p, r, x, y | p in index && r in index[p]
      ensures Leads(eval, r, x) == Leads(eval, r, y)
    {
      if r.Some? && r.value.marker.Some? {
        BlindApplies(eval, r.value, x);
        BlindApplies(eval, r.value, y);
      }
    }
  }

  lemma BlindApplies(eval: MarkerEval, requirement: Requirement, extras: seq<string>)
    requires requirement.marker.Some? && Blind(eval, requirement.marker.value)
    ensures Applies(eval, requirement, extras) == eval(requirement.marker.value, "")
  {
    if extras != [] {
      assert eval(requirement.marker.value, extras[0]) == eval(requirement.marker.value, "");
    }
  }

  lemma FollowOne(index: Index, eval: MarkerEval, r: Option<Requirement>, extras: seq<string>, visited: set<string>)
    ensures Follow(index, eval, [r], extras, visited)
         == if Leads(eval, r, extras) then Visit(index, eval, Target(r.value), visited) else visited
  {
  }

  /** The graph on which a marker `k` that looks at its extra loses package "d": "b" is first asked for
      with `first`, under which `k` fails, and later with `second`, under which it holds. */
  function LosingIndex(k: string, first: seq<string>, second: seq<string>): Index {
    map["a" := [Some(Requirement("b", first, None)), Some(Requirement("c", [], None))],
        "b" := [Some(Requirement("d", [], Some(k)))],
        "c" := [Some(Requirement("b", second, None))]]
  }

  lemma LosingPath(eval: MarkerEval, k: string, first: seq<string>, second: seq<string>)
    requires Applies(eval, Requirement("d", [], Some(k)), second)
    ensures Reaches(LosingIndex(k, first, second), eval, Request("a", []), "d")
  {
    var index := LosingIndex(k, first, second);
    var a, b, c, d := Request("a", []), Request("b", second), Request("c", []), Request("d", []);
    assert PackageNames.Canonical("b") == "b" && PackageNames.Canonical("c") == "c" &&
        PackageNames.Canonical("d") == "d";
    assert Hop(index, eval, a, c) by { assert Target(index["a"][1].value) == c && index["a"][1] in index["a"]; }
    assert Hop(index, eval, c, b) by { assert Target(index["c"][0].value) == b && index["c"][0] in index["c"]; }
    assert Hop(index, eval, b, d) by { assert Target(index["b"][0].value) == d && index["b"][0] in index["b"]; }
    assert PathTo(index, eval, a, "d", [a, c, b, d]);
  }

  lemma LosingWalk(eval: MarkerEval, k: string, first: seq<string>, second: seq<string>)
    requires !Applies(eval, Requirement("d", [], Some(k)), first)
    ensures Visit(LosingIndex(k, first, second), eval, Request("a", []), {}) == {"a", "b", "c"}
  {
    var index := LosingIndex(k, first, second);
    assert PackageNames.Canonical("b") == "b" && PackageNames.Canonical("c") == "c";
    FollowOne(index, eval, index["b"][0], first, {"a", "b"});
    assert Visit(index, eval, Request("b", first), {"a"}) == {"a", "b"} by {
      assert {"a"} + {"b"} == {"a", "b"};
    }
    FollowOne(index, eval, index["c"][0], [], {"a", "b", "c"});
    assert Visit(index, eval, Request("c", []), {"a", "b"}) == {"a", "b", "c"} by {
      assert {"a", "b"} + {"c"} == {"a", "b", "c"};
    }
    FollowOne(index, eval, index["a"][1], [], {"a", "b"});
    assert index["a"][1..] == [index["a"][1]];
    assert Follow(index, eval, index["a"], [], {"a"}) == {"a", "b", "c"};
    assert {} + {"a"} == {"a"};
  }

  ghost predicate ExactOnAllGraphs(eval: MarkerEval, markers: set<string>) {
    forall index, root | MarkersWithin(index, markers) :: WalkExact(index, eval, root)
  }

  /** Exactly when the walk is right: every graph built from these markers is walked exactly if and only
      if none of the markers looks at its extra. */
  lemma ExactIffMarkersIgnoreExtras(eval: MarkerEval, markers: set<string>)
    ensures ExactOnAllGraphs(eval, markers) <==> forall k :: k in markers ==> Blind(eval, k)
  {
    if forall k :: k in markers ==> Blind(eval, k) {
      forall index, root | MarkersWithin(index, markers)
        ensures WalkExact(index, eval, root)
      {
        BlindIsUniform(index, eval, root, markers);
        UniformWalkExact(index, eval, root);
      }
    } else {
      var k :| k in markers && !Blind(eval, k);
      var e :| eval(k, e) != eval(k, "");
      var first, second := if eval(k, "") then [e] else [], if eval(k, "") then [] else [e];
      assert [e][0] == e;
      LosingWalk(eval, k, first, second);
      LosingPath(eval, k, first, second);
      assert !WalkExact(LosingIndex(k, first, second), eval, Request("a", []));
      assert MarkersWithin(LosingIndex(k, first, second), markers);
    }
  }

  // ---------------------------------------------------------------- the membership map

  /** With markers that ignore extras, a package carries the tag of a release graph exactly when some root
      of that graph reaches it. */
  lemma MembershipIsReachability(membership: map<string, set<string>>, index: Index, eval: MarkerEval, roots: seq<Root>)
    requires IsMembership(membership, index, eval, roots)
    requires forall r :: r in roots ==> Uniform(index, eval, r.request)
    ensures forall n, g :: Has(membership, n, g)
                      <==> exists r :: r in roots && r.group == g && Reaches(index, eval, r.request, n)
  {
    forall r | r in roots
      ensures forall n :: Tags(index, eval, r, n) <==> Reaches(index, eval, r.request, n)
    {
      UniformWalkExact(index, eval, r.request);
    }
  }

  /** With any markers, every tag has a witness: a root of that graph and a path from it to the package. */
  lemma EveryTagHasPath(membership: map<string, set<string>>, index: Index, eval: MarkerEval, roots: seq<Root>,
                        n: string, g: string)
      returns (root: Root, path: seq<Request>)
    requires IsMembership(membership, index, eval, roots) && Has(membership, n, g)
    ensures root in roots && root.group == g && PathTo(index, eval, root.request, n, path)
  {
    root :| root in roots && root.group == g && Tags(index, eval, root, n);
    path := VisitHasPath(index, eval, root.request, {}, n);
  }

  /** Reordering or repeating roots never changes the map. */
  lemma MembershipIgnoresRootOrder(a: map<string, set<string>>, b: map<string, set<string>>,
                                   index: Index, eval: MarkerEval, rootsA: seq<Root>, rootsB: seq<Root>)
    requires IsMembership(a, index, eval, rootsA) && IsMembership(b, index, eval, rootsB)
    requires forall r :: r in rootsA <==> r in rootsB
    ensures a == b
  {
    assert forall n, g :: Has(a, n, g) <==> Has(b, n, g);
    forall n
      ensures n in a <==> n in b
    {
      if n in a { var g :| g in a[n]; assert Has(a, n, g); }
      if n in b { var g :| g in b[n]; assert Has(b, n, g); }
    }
    forall n | n in a
      ensures a[n] == b[n]
    {
      forall g ensures g in a[n] <==> g in b[n] { assert Has(a, n, g) <==> Has(b, n, g); }
    }
  }
}
