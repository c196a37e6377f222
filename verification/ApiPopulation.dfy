/** The API-server population of hack/capacity/apiserver.go: a one-to-one mapping from the declared
control-plane nodes to running kube-apiserver Pods, and the readings collected from all of them at
once under a mutex.
 */
module ApiPopulation {
  import opened Results

  const CONTROL_PLANE := "node-role.kubernetes.io/control-plane"
  const SYSTEM := "kube-system"
  const COMPONENT := "component"
  const API_SERVER := "kube-apiserver"

  datatype Node = Node(name: string, uid: string, labels: map<string, string>)

  datatype Container = Container(name: string, id: string, startedAt: Option<int>, restartCount: int)

  datatype Pod = Pod(
    namespace: string, name: string, uid: string, labels: map<string, string>, nodeName: string,
    deleted: bool, running: bool, containers: seq<Container>)

  /** The zero start time stands for none. */
  datatype Process = Process(podUID: string, containerID: string, startedAt: int, restartCount: int)

  datatype Identity = Identity(node: string, nodeUID: string, pod: string, process: Process)

  datatype Problem = WrongNodes | NotDistinctNodes | NotAMember | NoIdentity | Duplicate | WrongServers

  // ----------------------------------------------------------------- one container

  /** The identity of the first container with the name, if it is running. */
  function ContainerIdentity(pod: Pod, name: string): (r: Option<Process>)
    ensures r.Some? ==> r.value.podUID == pod.uid != ""
  {
    if pod.uid == "" || !pod.running then None else FirstNamed(pod, name, 0)
  }

  function FirstNamed(pod: Pod, name: string, k: nat): (r: Option<Process>)
    requires k <= |pod.containers|
    ensures r.Some? ==> r.value.podUID == pod.uid
    decreases |pod.containers| - k
  {
    if k == |pod.containers| then None
    else
      var c := pod.containers[k];
      if c.name != name then FirstNamed(pod, name, k + 1)
      else if c.id == "" || c.startedAt.None? || c.startedAt.value == 0 then None
      else Some(Process(pod.uid, c.id, c.startedAt.value, c.restartCount))
  }

  predicate IsStarted(c: Container) {
    c.id != "" && c.startedAt.Some? && c.startedAt.value != 0
  }

  /** The container at k is the first with the name. */
  ghost predicate IsFirstNamed(pod: Pod, name: string, k: nat) {
    && k < |pod.containers| && pod.containers[k].name == name
    && forall i :: 0 <= i < k ==> pod.containers[i].name != name
  }

  /** A Pod has an identity exactly when it runs, has a UID, and its first container of the name,
      whatever comes after it, has started; the identity is that container's. */
  lemma {:induction false} IdentityIsFirstNamed(pod: Pod, name: string, p: Process)
    ensures ContainerIdentity(pod, name) == Some(p) <==>
      && pod.uid != "" && pod.running
      && exists k: nat :: IsFirstNamed(pod, name, k) && IsStarted(pod.containers[k]) && p == ProcessOf(pod, k)
  {
    FirstNamedFrom(pod, name, 0, p);
  }

  function ProcessOf(pod: Pod, k: nat): Process
    requires k < |pod.containers| && IsStarted(pod.containers[k])
  {
    var c := pod.containers[k];
    Process(pod.uid, c.id, c.startedAt.value, c.restartCount)
  }

  lemma {:induction false} FirstNamedFrom(pod: Pod, name: string, i: nat, p: Process)
    requires i <= |pod.containers| && forall j :: 0 <= j < i ==> pod.containers[j].name != name
    ensures FirstNamed(pod, name, i) == Some(p) <==>
      exists k: nat :: IsFirstNamed(pod, name, k) && IsStarted(pod.containers[k]) && p == ProcessOf(pod, k)
    decreases |pod.containers| - i
  {
    if i == |pod.containers| {
    } else if pod.containers[i].name != name {
      FirstNamedFrom(pod, name, i + 1, p);
    } else {
      assert IsFirstNamed(pod, name, i);
      assert forall k: nat :: IsFirstNamed(pod, name, k) ==> k == i;
    }
  }

  // ---------------------------------------------------------------- the population

  predicate IsControlPlane(n: Node) {
    CONTROL_PLANE in n.labels && n.name != "" && n.uid != ""
  }

  predicate IsServer(p: Pod) {
    IsMember(p) && ContainerIdentity(p, API_SERVER).Some?
  }

  ghost predicate DistinctBy<T>(s: seq<T>, key: T -> string) {
    forall i, j :: 0 <= i < j < |s| ==> key(s[i]) != key(s[j])
  }

  function NodeName(n: Node): string { n.name }
  function NodeUID(n: Node): string { n.uid }
  function HostName(p: Pod): string { p.nodeName }
  function PodUID(p: Pod): string { p.uid }

  ghost predicate AreNodes(nodes: seq<Node>) {
    && (forall n :: n in nodes ==> IsControlPlane(n))
    && DistinctBy(nodes, NodeName) && DistinctBy(nodes, NodeUID)
  }

  ghost predicate Names(nodes: seq<Node>, name: string) {
    exists n :: n in nodes && n.name == name
  }

  ghost predicate ArePods(nodes: seq<Node>, pods: seq<Pod>) {
    && (forall p :: p in pods ==> IsServer(p) && Names(nodes, p.nodeName))
    && DistinctBy(pods, HostName) && DistinctBy(pods, PodUID)
  }

  /** Every node has one server and every server one node, each with a UID of its own. */
  ghost predicate IsPopulation(nodes: seq<Node>, pods: seq<Pod>, expected: int) {
    1 <= expected == |nodes| && |pods| == expected && AreNodes(nodes) && ArePods(nodes, pods)
  }

  predicate IsMember(p: Pod) {
    && p.namespace == SYSTEM
    && COMPONENT in p.labels && p.labels[COMPONENT] == API_SERVER
    && p.name != "" && !p.deleted
  }

  /** What a problem says of the Pods. */
  ghost predicate IsWrongPod(nodes: seq<Node>, pods: seq<Pod>, problem: Problem) {
    match problem
    case NotAMember => exists p :: p in pods && !(IsMember(p) && Names(nodes, p.nodeName))
    case NoIdentity => exists p :: p in pods && ContainerIdentity(p, API_SERVER).None?
    case Duplicate => !DistinctBy(pods, HostName) || !DistinctBy(pods, PodUID)
    case _ => false
  }

  /** What a problem says of the nodes and Pods. */
  ghost predicate IsWrong(nodes: seq<Node>, pods: seq<Pod>, expected: int, problem: Problem) {
    || (problem == WrongNodes && (expected < 1 || |nodes| != expected))
    || (problem == NotDistinctNodes && !AreNodes(nodes))
    || (problem == WrongServers && ArePods(nodes, pods) && |pods| != expected)
    || IsWrongPod(nodes, pods, problem)
  }

  /** The target a server becomes. */
  ghost predicate IsTarget(nodes: seq<Node>, p: Pod, id: Identity) {
    && id.node == p.nodeName && id.pod == p.name
    && ContainerIdentity(p, API_SERVER) == Some(id.process)
    && exists n :: n in nodes && n.name == p.nodeName && n.uid == id.nodeUID
  }

  ghost predicate AreTargets(nodes: seq<Node>, pods: seq<Pod>, targets: map<string, Identity>) {
    && (forall p :: p in pods ==> p.nodeName in targets && IsTarget(nodes, p, targets[p.nodeName]))
    && (forall name :: name in targets ==> exists p :: p in pods && p.nodeName == name)
  }

  /** The nodes read so far, by name, and the UIDs seen. */
  ghost predicate AreRead(nodes: seq<Node>, byNode: map<string, string>, uids: set<string>) {
    && AreNodes(nodes)
    && (forall n :: n in nodes ==> n.name in byNode && byNode[n.name] == n.uid && n.uid in uids)
    && (forall name :: name in byNode ==> exists n :: n in nodes && n.name == name)
    && (forall uid :: uid in uids ==> exists n :: n in nodes && n.uid == uid)
  }

  lemma DistinctNext<T>(s: seq<T>, x: T, key: T -> string)
    requires DistinctBy(s, key)
    ensures DistinctBy(s + [x], key) <==> forall y :: y in s ==> key(y) != key(x)
  {
    var longer := s + [x];
    if DistinctBy(longer, key) {
      forall y | y in s ensures key(y) != key(x) {
        var i :| 0 <= i < |s| && s[i] == y;
        assert longer[i] == y && longer[|s|] == x;
      }
    }
  }

  lemma DistinctPrefix<T>(s: seq<T>, n: nat, key: T -> string)
    requires n <= |s| && DistinctBy(s, key)
    ensures DistinctBy(s[..n], key)
  {
  }

  /** One more node joins those read exactly when it is new and of the control plane. */
  lemma NodeJoins(before: seq<Node>, x: Node, byNode: map<string, string>, uids: set<string>)
    requires AreRead(before, byNode, uids)
    ensures AreNodes(before + [x]) <==> IsControlPlane(x) && x.name !in byNode && x.uid !in uids
  {
    hide DistinctBy, IsControlPlane;
    DistinctNext(before, x, NodeName);
    DistinctNext(before, x, NodeUID);
    if AreNodes(before + [x]) {
      assert x in before + [x];
    }
  }

  lemma ReadNext(before: seq<Node>, x: Node, byNode: map<string, string>, uids: set<string>)
    requires AreRead(before, byNode, uids) && AreNodes(before + [x])
    requires x.name !in byNode && x.uid !in uids
    ensures AreRead(before + [x], byNode[x.name := x.uid], uids + {x.uid})
  {
    hide AreNodes;
    assert forall n :: n in before ==> n in before + [x];
    assert x in before + [x];
  }

  method ReadNodes(nodes: seq<Node>) returns (r: Result<map<string, string>, Problem>)
    ensures r.Success? <==> AreNodes(nodes)
    ensures r.Failure? ==> r.error == NotDistinctNodes
    ensures r.Success? ==> exists uids :: AreRead(nodes, r.value, uids)
  {
    hide AreNodes, AreRead;
    var byNode: map<string, string> := map[];
    var nodeUIDs: set<string> := {};
    NoneRead(nodes);
    for k := 0 to |nodes|
      invariant AreRead(nodes[..k], byNode, nodeUIDs)
    {
      var node := nodes[k];
      assert nodes[..k + 1] == nodes[..k] + [node];
      NodeJoins(nodes[..k], node, byNode, nodeUIDs);
      if CONTROL_PLANE !in node.labels || node.name == "" || node.uid == "" || node.name in byNode || node.uid in nodeUIDs {
        if AreNodes(nodes) {
          NodesPrefix(nodes, k + 1);
        }
        return Failure(NotDistinctNodes);
      }
      ReadNext(nodes[..k], node, byNode, nodeUIDs);
      byNode := byNode[node.name := node.uid];
      nodeUIDs := nodeUIDs + {node.uid};
    }
    assert nodes[..|nodes|] == nodes;
    ReadIsNodes(nodes, byNode, nodeUIDs);
    r := Success(byNode);
  }

  lemma NoneRead(nodes: seq<Node>)
    ensures AreRead(nodes[..0], map[], {})
  {
    assert nodes[..0] == [];
  }

  lemma ReadIsNodes(nodes: seq<Node>, byNode: map<string, string>, uids: set<string>)
    requires AreRead(nodes, byNode, uids)
    ensures AreNodes(nodes)
  {
  }

  lemma NodesPrefix(nodes: seq<Node>, k: nat)
    requires k <= |nodes| && AreNodes(nodes)
    ensures AreNodes(nodes[..k])
  {
    DistinctPrefix(nodes, k, NodeName);
    DistinctPrefix(nodes, k, NodeUID);
  }

  /** The servers found so far, by node, and the Pod UIDs seen. */
  ghost predicate AreFound(nodes: seq<Node>, pods: seq<Pod>, targets: map<string, Identity>, uids: set<string>) {
    && ArePods(nodes, pods)
    && AreTargets(nodes, pods, targets)
    && |targets| == |pods|
    && AreUIDs(pods, uids)
  }

  ghost predicate AreUIDs(pods: seq<Pod>, uids: set<string>) {
    && (forall p :: p in pods ==> p.uid in uids)
    && (forall uid :: uid in uids ==> exists p :: p in pods && p.uid == uid)
  }

  lemma NewHost(nodes: seq<Node>, pods: seq<Pod>, targets: map<string, Identity>, x: Pod)
    requires AreTargets(nodes, pods, targets)
    ensures x.nodeName !in targets <==> forall p :: p in pods ==> HostName(p) != HostName(x)
  {
    hide IsTarget;
  }

  lemma NewUID(pods: seq<Pod>, uids: set<string>, x: Pod)
    requires AreUIDs(pods, uids)
    ensures x.uid !in uids <==> forall p :: p in pods ==> PodUID(p) != PodUID(x)
  {
  }

  /** One more server joins those found exactly when its node and its UID are new. */
  lemma PodJoins(nodes: seq<Node>, before: seq<Pod>, x: Pod, targets: map<string, Identity>, uids: set<string>)
    requires AreFound(nodes, before, targets, uids)
    ensures ArePods(nodes, before + [x]) <==>
      IsServer(x) && Names(nodes, x.nodeName) && x.nodeName !in targets && x.uid !in uids
  {
    hide DistinctBy, IsServer, Names, AreTargets, AreUIDs;
    NewHost(nodes, before, targets, x);
    NewUID(before, uids, x);
    DistinctNext(before, x, HostName);
    DistinctNext(before, x, PodUID);
    if ArePods(nodes, before + [x]) {
      assert x in before + [x];
    }
  }

  lemma TargetsNext(nodes: seq<Node>, before: seq<Pod>, x: Pod, targets: map<string, Identity>, id: Identity)
    requires AreTargets(nodes, before, targets) && x.nodeName !in targets && IsTarget(nodes, x, id)
    ensures AreTargets(nodes, before + [x], targets[x.nodeName := id])
  {
    hide IsTarget;
    var pods, next := before + [x], targets[x.nodeName := id];
    forall name | name in next ensures exists p :: p in pods && p.nodeName == name {
      if name == x.nodeName {
        assert x in pods;
      } else {
        var p :| p in before && p.nodeName == name;
        assert p in pods;
      }
    }
  }

  lemma UIDsNext(before: seq<Pod>, x: Pod, uids: set<string>)
    requires AreUIDs(before, uids)
    ensures AreUIDs(before + [x], uids + {x.uid})
  {
    var pods := before + [x];
    forall uid | uid in uids + {x.uid} ensures exists p :: p in pods && p.uid == uid {
      if uid == x.uid {
        assert x in pods;
      } else {
        var p :| p in before && p.uid == uid;
        assert p in pods;
      }
    }
  }

  lemma FindNext(nodes: seq<Node>, before: seq<Pod>, x: Pod, targets: map<string, Identity>, uids: set<string>, id: Identity)
    requires AreFound(nodes, before, targets, uids) && ArePods(nodes, before + [x])
    requires x.nodeName !in targets && IsTarget(nodes, x, id)
    ensures AreFound(nodes, before + [x], targets[x.nodeName := id], uids + {x.uid})
  {
    hide ArePods, IsTarget, AreTargets, AreUIDs;
    TargetsNext(nodes, before, x, targets, id);
    UIDsNext(before, x, uids);
    assert targets[x.nodeName := id].Keys == targets.Keys + {x.nodeName};
  }

  lemma PodsPrefix(nodes: seq<Node>, pods: seq<Pod>, k: nat)
    requires k <= |pods| && ArePods(nodes, pods)
    ensures ArePods(nodes, pods[..k])
  {
    DistinctPrefix(pods, k, HostName);
    DistinctPrefix(pods, k, PodUID);
  }

  lemma NoneFound(nodes: seq<Node>, pods: seq<Pod>)
    ensures AreFound(nodes, pods[..0], map[], {})
  {
    assert pods[..0] == [];
  }

  lemma NodeOfName(nodes: seq<Node>, byNode: map<string, string>, uids: set<string>, name: string)
    requires AreRead(nodes, byNode, uids)
    ensures name in byNode <==> Names(nodes, name)
    ensures name in byNode ==> byNode[name] != "" && exists n :: n in nodes && n.name == name && n.uid == byNode[name]
  {
    hide DistinctBy;
  }

  method ReadPods(nodes: seq<Node>, byNode: map<string, string>, ghost nodeUIDs: set<string>, pods: seq<Pod>)
    returns (r: Result<map<string, Identity>, Problem>)
    requires AreRead(nodes, byNode, nodeUIDs)
    ensures r.Success? <==> ArePods(nodes, pods)
    ensures r.Success? ==> AreTargets(nodes, pods, r.value) && |r.value| == |pods|
    ensures r.Failure? ==> IsWrongPod(nodes, pods, r.error)
  {
    hide AreRead, ArePods, AreFound, AreTargets, Names, IsWrongPod;
    var targets: map<string, Identity> := map[];
    var seenUID: set<string> := {};
    NoneFound(nodes, pods);
    for k := 0 to |pods|
      invariant AreFound(nodes, pods[..k], targets, seenUID)
    {
      var pod := pods[k];
      assert pods[..k + 1] == pods[..k] + [pod];
      PodJoins(nodes, pods[..k], pod, targets, seenUID);
      NodeOfName(nodes, byNode, nodeUIDs, pod.nodeName);
      if ArePods(nodes, pods) {
        PodsPrefix(nodes, pods, k + 1);
      }
      var nodeUID := if pod.nodeName in byNode then byNode[pod.nodeName] else "";
      if || pod.namespace != SYSTEM || COMPONENT !in pod.labels || pod.labels[COMPONENT] != API_SERVER
         || nodeUID == "" || pod.name == "" || pod.deleted
      {
        WrongPod(nodes, pods, k, NotAMember);
        return Failure(NotAMember);
      }
      var process := ContainerIdentity(pod, API_SERVER);
      if process.None? {
        WrongPod(nodes, pods, k, NoIdentity);
        return Failure(NoIdentity);
      }
      if pod.nodeName in targets || process.value.podUID in seenUID {
        SecondPod(nodes, pods, k, targets, seenUID);
        return Failure(Duplicate);
      }
      seenUID := seenUID + {process.value.podUID};
      var id := Identity(pod.nodeName, nodeUID, pod.name, process.value);
      FindNext(nodes, pods[..k], pod, targets, seenUID - {process.value.podUID}, id);
      targets := targets[pod.nodeName := id];
    }
    assert pods[..|pods|] == pods;
    FoundIsPods(nodes, pods, targets, seenUID);
    r := Success(targets);
  }

  lemma {:induction false} WrongPod(nodes: seq<Node>, pods: seq<Pod>, k: nat, problem: Problem)
    requires k < |pods|
    requires || (problem == NotAMember && !(IsMember(pods[k]) && Names(nodes, pods[k].nodeName)))
             || (problem == NoIdentity && ContainerIdentity(pods[k], API_SERVER).None?)
    ensures IsWrongPod(nodes, pods, problem)
  {
    assert pods[k] in pods;
  }

  lemma {:induction false} SecondPod(nodes: seq<Node>, pods: seq<Pod>, k: nat, targets: map<string, Identity>, uids: set<string>)
    requires k < |pods| && AreFound(nodes, pods[..k], targets, uids)
    requires pods[k].nodeName in targets || pods[k].uid in uids
    ensures IsWrongPod(nodes, pods, Duplicate)
  {
    hide ArePods, AreTargets, AreUIDs;
    var before := pods[..k];
    NewHost(nodes, before, targets, pods[k]);
    NewUID(before, uids, pods[k]);
    var p :| p in before && (HostName(p) == HostName(pods[k]) || PodUID(p) == PodUID(pods[k]));
    var i :| 0 <= i < k && before[i] == p;
    assert pods[i] == p;
  }

  lemma FoundIsPods(nodes: seq<Node>, pods: seq<Pod>, targets: map<string, Identity>, uids: set<string>)
    requires AreFound(nodes, pods, targets, uids)
    ensures ArePods(nodes, pods) && AreTargets(nodes, pods, targets) && |targets| == |pods|
  {
  }

  method ApiPopulation(nodes: seq<Node>, pods: seq<Pod>, expected: int) returns (r: Result<map<string, Identity>, Problem>)
    ensures r.Success? <==> IsPopulation(nodes, pods, expected)
    ensures r.Success? ==> AreTargets(nodes, pods, r.value) && |r.value| == expected
    ensures r.Failure? ==> IsWrong(nodes, pods, expected, r.error)
  {
    hide AreNodes, ArePods, AreTargets, AreRead, IsWrongPod;
    if expected < 1 || |nodes| != expected { return Failure(WrongNodes); }
    var byNode := ReadNodes(nodes);
    if byNode.Failure? { return Failure(byNode.error); }
    ghost var uids :| AreRead(nodes, byNode.value, uids);
    var targets := ReadPods(nodes, byNode.value, uids, pods);
    if targets.Failure? { return Failure(targets.error); }
    if |targets.value| != expected { return Failure(WrongServers); }
    r := targets;
  }

  // ------------------------------------------------------------------ one to one

  function KeySet<T>(s: seq<T>, key: T -> string): set<string> {
    set k | 0 <= k < |s| :: key(s[k])
  }

  lemma {:induction false} CountKeys<T>(s: seq<T>, key: T -> string)
    requires DistinctBy(s, key)
    ensures |KeySet(s, key)| == |s|
  {
    if s == [] {
    } else {
      var init, last := s[..|s| - 1], s[|s| - 1];
      assert s == init + [last];
      DistinctPrefix(s, |init|, key);
      DistinctNext(init, last, key);
      CountKeys(init, key);
      KeysNext(init, last, key);
      assert key(last) !in KeySet(init, key);
    }
  }

  lemma KeysNext<T>(init: seq<T>, last: T, key: T -> string)
    ensures KeySet(init + [last], key) == KeySet(init, key) + {key(last)}
  {
    var s := init + [last];
    forall x | x in KeySet(init, key) ensures x in KeySet(s, key) {
      var k :| 0 <= k < |init| && key(init[k]) == x;
      assert key(s[k]) == x;
    }
    assert key(s[|init|]) == key(last);
  }

  lemma SameSize(small: set<string>, large: set<string>)
    requires small <= large && |small| == |large|
    ensures small == large
  {
    if x :| x in large && x !in small {
      assert small <= large - {x};
      SubsetIsSmaller(small, large - {x});
    }
  }

  lemma {:induction false} SubsetIsSmaller<T>(small: set<T>, large: set<T>)
    requires small <= large
    ensures |small| <= |large|
  {
    if small == {} {
    } else {
      var x :| x in small;
      SubsetIsSmaller(small - {x}, large - {x});
    }
  }

  /** As many servers as nodes, each on a declared node and none on the same, leave no node out. */
  lemma HostsAreNodes(nodes: seq<Node>, pods: seq<Pod>, expected: int)
    requires IsPopulation(nodes, pods, expected)
    ensures KeySet(pods, HostName) == KeySet(nodes, NodeName)
  {
    hide IsServer, IsControlPlane, DistinctBy;
    var hosts, names := KeySet(pods, HostName), KeySet(nodes, NodeName);
    CountKeys(pods, HostName);
    CountKeys(nodes, NodeName);
    forall h | h in hosts ensures h in names {
      var i :| 0 <= i < |pods| && HostName(pods[i]) == h;
      assert pods[i] in pods && Names(nodes, h);
      var node :| node in nodes && node.name == h;
      var j :| 0 <= j < |nodes| && nodes[j] == node;
      assert NodeName(nodes[j]) == h;
    }
    SameSize(hosts, names);
  }

  /** Every declared node has a server, and no node has two. */
  lemma EveryNodeHasOneServer(nodes: seq<Node>, pods: seq<Pod>, expected: int, n: Node) returns (k: nat)
    requires IsPopulation(nodes, pods, expected) && n in nodes
    ensures k < |pods| && pods[k].nodeName == n.name
    ensures forall l :: 0 <= l < |pods| && pods[l].nodeName == n.name ==> l == k
    ensures forall l :: 0 <= l < |nodes| && nodes[l].name == pods[k].nodeName ==> nodes[l] == n
  {
    hide IsServer, IsControlPlane;
    HostsAreNodes(nodes, pods, expected);
    var i :| 0 <= i < |nodes| && nodes[i] == n;
    assert NodeName(nodes[i]) in KeySet(pods, HostName);
    k :| 0 <= k < |pods| && HostName(pods[k]) == n.name;
    forall l | 0 <= l < |pods| && pods[l].nodeName == n.name ensures l == k {
      assert HostName(pods[l]) == HostName(pods[k]);
    }
    forall l | 0 <= l < |nodes| && nodes[l].name == pods[k].nodeName ensures nodes[l] == n {
      assert NodeName(nodes[l]) == NodeName(nodes[i]);
    }
  }

  // --------------------------------------------------------- whatever the order

  ghost predicate KeyedOnce<T>(s: seq<T>, key: T -> string) {
    && (forall x :: x in s ==> multiset(s)[x] == 1)
    && (forall x, y :: x in s && y in s && key(x) == key(y) ==> x == y)
  }

  lemma {:induction false} DistinctByCount<T>(s: seq<T>, key: T -> string)
    ensures DistinctBy(s, key) <==> KeyedOnce(s, key)
  {
    if s == [] {
    } else {
      var init, last := s[..|s| - 1], s[|s| - 1];
      assert s == init + [last];
      DistinctByCount(init, key);
      if DistinctBy(s, key) {
        DistinctIsKeyed(init, last, key);
      }
      if KeyedOnce(s, key) {
        KeyedIsDistinct(init, last, key);
      }
    }
  }

  lemma DistinctIsKeyed<T>(init: seq<T>, last: T, key: T -> string)
    requires DistinctBy(init + [last], key) && (DistinctBy(init, key) ==> KeyedOnce(init, key))
    ensures KeyedOnce(init + [last], key)
  {
    var s := init + [last];
    DistinctPrefix(s, |init|, key);
    assert s[..|init|] == init;
    DistinctNext(init, last, key);
    assert last !in init;
    assert last !in multiset(init);
    forall x | x in s ensures multiset(s)[x] == 1 {
      assert x in init || x == last;
    }
  }

  lemma KeyedIsDistinct<T>(init: seq<T>, last: T, key: T -> string)
    requires KeyedOnce(init + [last], key) && (KeyedOnce(init, key) ==> DistinctBy(init, key))
    ensures DistinctBy(init + [last], key)
  {
    var s := init + [last];
    assert last in s && multiset(s)[last] == 1;
    assert last !in multiset(init);
    forall x | x in init ensures multiset(init)[x] == 1 && key(x) != key(last) {
      assert x in s && multiset(s)[x] == 1;
    }
    assert forall x :: x in init ==> x in s;
    DistinctNext(init, last, key);
  }

  lemma SameMembers<T>(s: seq<T>, t: seq<T>)
    requires multiset(s) == multiset(t)
    ensures |s| == |t| && forall x :: x in s <==> x in t
  {
    assert |multiset(s)| == |s| && |multiset(t)| == |t|;
    forall x ensures x in s <==> x in t {
      assert x in s <==> x in multiset(s);
      assert x in t <==> x in multiset(t);
    }
  }

  lemma DistinctIgnoresOrder<T>(s: seq<T>, t: seq<T>, key: T -> string)
    requires multiset(s) == multiset(t)
    ensures DistinctBy(s, key) <==> DistinctBy(t, key)
  {
    hide DistinctBy;
    SameMembers(s, t);
    DistinctByCount(s, key);
    DistinctByCount(t, key);
  }

  /** The verdict and the map are the same in whatever order the nodes and the Pods are listed. */
  lemma PopulationIgnoresOrder(
    nodes: seq<Node>, nodes': seq<Node>, pods: seq<Pod>, pods': seq<Pod>, expected: int,
    targets: map<string, Identity>, targets': map<string, Identity>)
    requires multiset(nodes) == multiset(nodes') && multiset(pods) == multiset(pods')
    ensures IsPopulation(nodes, pods, expected) <==> IsPopulation(nodes', pods', expected)
    ensures IsPopulation(nodes, pods, expected) && AreTargets(nodes, pods, targets) && AreTargets(nodes', pods', targets') ==>
      targets == targets'
  {
    hide DistinctBy, IsServer, IsControlPlane, IsTarget;
    SameMembers(nodes, nodes');
    SameMembers(pods, pods');
    DistinctIgnoresOrder(nodes, nodes', NodeName);
    DistinctIgnoresOrder(nodes, nodes', NodeUID);
    DistinctIgnoresOrder(pods, pods', HostName);
    DistinctIgnoresOrder(pods, pods', PodUID);
    forall name ensures Names(nodes, name) <==> Names(nodes', name) {
    }
    if IsPopulation(nodes, pods, expected) && AreTargets(nodes, pods, targets) && AreTargets(nodes', pods', targets') {
      TargetsAreOne(nodes, nodes', pods, pods', targets, targets');
    }
  }

  lemma TargetsAreOne(
    nodes: seq<Node>, nodes': seq<Node>, pods: seq<Pod>, pods': seq<Pod>,
    targets: map<string, Identity>, targets': map<string, Identity>)
    requires DistinctBy(nodes, NodeName)
    requires (forall n :: n in nodes <==> n in nodes') && (forall p :: p in pods <==> p in pods')
    requires AreTargets(nodes, pods, targets) && AreTargets(nodes', pods', targets')
    ensures targets == targets'
  {
    hide IsTarget, DistinctBy;
    forall name | name in targets ensures name in targets' && targets[name] == targets'[name] {
      var p :| p in pods && p.nodeName == name;
      assert p in pods';
      OneTarget(nodes, nodes', p, targets[name], targets'[name]);
    }
    forall name | name in targets' ensures name in targets {
      var p :| p in pods' && p.nodeName == name;
      assert p in pods;
    }
  }

  lemma OneTarget(nodes: seq<Node>, nodes': seq<Node>, p: Pod, id: Identity, id': Identity)
    requires DistinctBy(nodes, NodeName) && forall n :: n in nodes <==> n in nodes'
    requires IsTarget(nodes, p, id) && IsTarget(nodes', p, id')
    ensures id == id'
  {
    var n :| n in nodes && n.name == p.nodeName && n.uid == id.nodeUID;
    var n' :| n' in nodes' && n'.name == p.nodeName && n'.uid == id'.nodeUID;
    DistinctByCount(nodes, NodeName);
    assert n' in nodes && NodeName(n) == NodeName(n');
  }

  // ------------------------------------------------------------- the collection

  datatype Reading = Reading(identity: Identity, rejected: real)

  /** What one scraper meets: whether its scrape succeeded, the Pod as it is afterwards if it could
      be fetched, and metrics with the value they hold if they are valid. */
  datatype Attempt = Attempt(scraped: bool, after: Option<Pod>, rejected: Option<real>)

  /** The process a target names runs on its node in a Pod that is not going away. */
  predicate Serves(pod: Pod, id: Identity) {
    ContainerIdentity(pod, API_SERVER) == Some(id.process) && pod.nodeName == id.node && !pod.deleted
  }

  /** A reading is kept exactly when the scrape and its metrics are good and the same process still
      serves the same node after it. */
  function Outcome(id: Identity, a: Attempt): (r: Option<Reading>)
    ensures r.Some? <==> a.scraped && a.after.Some? && Serves(a.after.value, id) && a.rejected.Some?
    ensures r.Some? ==> r.value.identity == id && r.value.rejected == a.rejected.value
  {
    if !a.scraped || a.after.None? then None
    else
      var current := a.after.value;
      if ContainerIdentity(current, API_SERVER) != Some(id.process) || current.nodeName != id.node || current.deleted then None
      else if a.rejected.None? then None
      else Some(Reading(id, a.rejected.value))
  }

  /** What the collection reports: a server it could not read, lists it could not read again, or a
      population that is no longer the one it started from. */
  datatype Trouble = NotRead(node: string) | NotListed | Changed

  /** The shared map and slice, written by one scraper at a time. */
  class Collection {
    var readings: map<string, Reading>
    var problems: seq<Trouble>

    constructor ()
      ensures readings == map[] && problems == []
    {
      readings, problems := map[], [];
    }

    method Commit(id: Identity, outcome: Option<Reading>)
      modifies this
      ensures outcome.None? ==> problems == old(problems) + [NotRead(id.node)] && readings == old(readings)
      ensures outcome.Some? ==> problems == old(problems) && readings == old(readings)[id.node := outcome.value]
    {
      if outcome.None? {
        problems := problems + [NotRead(id.node)];
        return;
      }
      readings := readings[id.node := outcome.value];
    }
  }

  /** The order the scrapers come to the mutex in: any, each once. */
  ghost predicate IsSchedule(schedule: seq<nat>, n: nat) {
    && |schedule| == n
    && (forall i :: 0 <= i < n ==> schedule[i] < n)
    && (forall i, j :: 0 <= i < j < n ==> schedule[i] != schedule[j])
  }

  /** What the map and the slice are once some of the scrapers have come to the mutex: a reading or
      a problem of each of them, and nothing else. */
  ghost predicate Collected(
    pods: seq<Pod>, targets: map<string, Identity>, attempts: seq<Attempt>, ran: set<nat>,
    readings: map<string, Reading>, problems: seq<Trouble>)
    requires |attempts| == |pods| && forall k :: 0 <= k < |pods| ==> pods[k].nodeName in targets
  {
    && (forall k :: k in ran && k < |pods| ==> Committed(pods, targets, attempts, k, readings, problems))
    && (forall name :: name in readings ==> exists k :: k in ran && k < |pods| && pods[k].nodeName == name)
    && (forall x :: x in problems ==> exists k :: k in ran && k < |pods| && x == NotRead(pods[k].nodeName))
  }

  ghost predicate Committed(
    pods: seq<Pod>, targets: map<string, Identity>, attempts: seq<Attempt>, k: nat,
    readings: map<string, Reading>, problems: seq<Trouble>)
    requires k < |pods| == |attempts| && pods[k].nodeName in targets
  {
    var name := pods[k].nodeName;
    match OutcomeOf(pods, targets, attempts, k)
    case None => name !in readings && NotRead(name) in problems
    case Some(reading) => name in readings && readings[name] == reading && NotRead(name) !in problems
  }

  function OutcomeOf(pods: seq<Pod>, targets: map<string, Identity>, attempts: seq<Attempt>, k: nat): Option<Reading>
    requires k < |pods| == |attempts| && pods[k].nodeName in targets
  {
    Outcome(targets[pods[k].nodeName], attempts[k])
  }

  ghost predicate AllSucceed(pods: seq<Pod>, targets: map<string, Identity>, attempts: seq<Attempt>)
    requires |attempts| == |pods| && forall k :: 0 <= k < |pods| ==> pods[k].nodeName in targets
  {
    forall k :: 0 <= k < |pods| ==> OutcomeOf(pods, targets, attempts, k).Some?
  }

  /** One reading for each target, taken from the process the target names. */
  ghost predicate OneEach(targets: map<string, Identity>, readings: map<string, Reading>) {
    readings.Keys == targets.Keys && forall name :: name in targets ==> readings[name].identity == targets[name]
  }

  /** The population read again is the one the collection started from. */
  ghost predicate Unchanged(nodes: seq<Node>, pods: seq<Pod>, expected: int, targets: map<string, Identity>) {
    IsPopulation(nodes, pods, expected) && AreTargets(nodes, pods, targets)
  }

  lemma {:induction false} CommitNext(
    pods: seq<Pod>, targets: map<string, Identity>, attempts: seq<Attempt>, ran: set<nat>, k: nat,
    readings: map<string, Reading>, problems: seq<Trouble>, readings': map<string, Reading>, problems': seq<Trouble>)
    requires |attempts| == |pods| && (forall i :: 0 <= i < |pods| ==> pods[i].nodeName in targets)
    requires DistinctBy(pods, HostName) && k < |pods| && k !in ran
    requires Collected(pods, targets, attempts, ran, readings, problems)
    requires var o := OutcomeOf(pods, targets, attempts, k);
      && readings' == (if o.Some? then readings[pods[k].nodeName := o.value] else readings)
      && problems' == (if o.Some? then problems else problems + [NotRead(pods[k].nodeName)])
    ensures Collected(pods, targets, attempts, ran + {k}, readings', problems')
  {
    hide OutcomeOf;
    forall i | i in ran && i < |pods| ensures pods[i].nodeName != pods[k].nodeName {
      assert HostName(pods[i]) != HostName(pods[k]);
    }
    forall i | i in ran + {k} && i < |pods| ensures Committed(pods, targets, attempts, i, readings', problems') {
      if i != k {
        assert Committed(pods, targets, attempts, i, readings, problems);
      }
    }
    forall name | name in readings' ensures exists i :: i in ran + {k} && i < |pods| && pods[i].nodeName == name {
      if name in readings {
        var i :| i in ran && i < |pods| && pods[i].nodeName == name;
        assert i in ran + {k};
      } else {
        assert k in ran + {k};
      }
    }
    forall x | x in problems' ensures exists i :: i in ran + {k} && i < |pods| && x == NotRead(pods[i].nodeName) {
      if x in problems {
        var i :| i in ran && i < |pods| && x == NotRead(pods[i].nodeName);
        assert i in ran + {k};
      } else {
        assert k in ran + {k};
      }
    }
  }

  lemma {:induction false} ScheduleRunsAll(schedule: seq<nat>, n: nat, k: nat)
    requires IsSchedule(schedule, n) && k < n
    ensures k in schedule
  {
    var ran := set i | 0 <= i < n :: schedule[i];
    ScheduleCounts(schedule, n);
    var all := Below(n);
    assert ran <= all;
    if k !in ran {
      SubsetIsSmaller(ran, all - {k});
    }
  }

  lemma {:induction false} ScheduleCounts(schedule: seq<nat>, m: nat)
    requires m <= |schedule| && forall i, j :: 0 <= i < j < |schedule| ==> schedule[i] != schedule[j]
    ensures |set i | 0 <= i < m :: schedule[i]| == m
  {
    if m == 0 {
    } else {
      ScheduleCounts(schedule, m - 1);
      assert (set i | 0 <= i < m :: schedule[i]) == (set i | 0 <= i < m - 1 :: schedule[i]) + {schedule[m - 1]};
    }
  }

  function Below(n: nat): (s: set<nat>)
    ensures |s| == n && forall i :: i in s <==> 0 <= i < n
  {
    if n == 0 then {} else Below(n - 1) + {n - 1}
  }

  /** Every scraper, in any order, each committing what it met. */
  method CollectAll(pods: seq<Pod>, targets: map<string, Identity>, attempts: seq<Attempt>, schedule: seq<nat>)
    returns (readings: map<string, Reading>, problems: seq<Trouble>)
    requires |attempts| == |pods| && IsSchedule(schedule, |pods|) && DistinctBy(pods, HostName)
    requires forall k :: 0 <= k < |pods| ==> pods[k].nodeName in targets && targets[pods[k].nodeName].node == pods[k].nodeName
    ensures Collected(pods, targets, attempts, Below(|pods|), readings, problems)
  {
    hide OutcomeOf, Collected, DistinctBy;
    var collection := new Collection();
    ghost var ran: set<nat> := {};
    NoneCollected(pods, targets, attempts);
    for i := 0 to |schedule|
      invariant ran == set j | 0 <= j < i :: schedule[j]
      invariant Collected(pods, targets, attempts, ran, collection.readings, collection.problems)
    {
      var k := schedule[i];
      var id := targets[pods[k].nodeName];
      var outcome := Outcome(id, attempts[k]);
      OutcomeIs(pods, targets, attempts, k);
      ghost var before, already := collection.readings, collection.problems;
      collection.Commit(id, outcome);
      CommitNext(pods, targets, attempts, ran, k, before, already, collection.readings, collection.problems);
      ran := ran + {k};
    }
    AllRan(schedule, |pods|, ran);
    assert ran == Below(|pods|);
    readings, problems := collection.readings, collection.problems;
  }

  lemma {:induction false} NoneCollected(pods: seq<Pod>, targets: map<string, Identity>, attempts: seq<Attempt>)
    requires |attempts| == |pods| && forall k :: 0 <= k < |pods| ==> pods[k].nodeName in targets
    ensures Collected(pods, targets, attempts, {}, map[], [])
  {
  }

  /** The population is listed again when the scrapers are done. */
  method ReadAgain(again: Option<(seq<Node>, seq<Pod>)>, expected: int, targets: map<string, Identity>)
    returns (trouble: Option<Trouble>)
    ensures trouble == Some(NotListed) <==> again.None?
    ensures trouble == Some(Changed) <==> again.Some? && !Unchanged(again.value.0, again.value.1, expected, targets)
    ensures trouble.Some? ==> !trouble.value.NotRead?
  {
    hide IsPopulation, AreTargets;
    if again.None? { return Some(NotListed); }
    var current := ApiPopulation(again.value.0, again.value.1, expected);
    if current.Failure? || current.value != targets {
      if Unchanged(again.value.0, again.value.1, expected, targets) {
        SamePopulation(again.value.0, again.value.1, expected, current.value, targets);
      }
      return Some(Changed);
    }
    return None;
  }

  lemma {:induction false} SamePopulation(
    nodes: seq<Node>, pods: seq<Pod>, expected: int, targets: map<string, Identity>, targets': map<string, Identity>)
    requires IsPopulation(nodes, pods, expected) && AreTargets(nodes, pods, targets) && AreTargets(nodes, pods, targets')
    ensures targets == targets'
  {
    hide AreTargets;
    TargetsAreOne(nodes, nodes, pods, pods, targets, targets');
  }

  /** The collection under any order of the scrapers, and the population read again after it. No
      error means one reading for every target and a population that did not change. */
  method ReadAPIServers(
    nodes: seq<Node>, pods: seq<Pod>, expected: int, attempts: seq<Attempt>, schedule: seq<nat>,
    again: Option<(seq<Node>, seq<Pod>)>)
    returns (r: Result<map<string, Reading>, Problem>, problems: seq<Trouble>, ghost targets: map<string, Identity>)
    requires |attempts| == |pods| && IsSchedule(schedule, |pods|)
    ensures r.Success? <==> IsPopulation(nodes, pods, expected)
    ensures r.Failure? ==> IsWrong(nodes, pods, expected, r.error)
    ensures r.Success? ==> AreTargets(nodes, pods, targets)
    ensures r.Success? ==> forall k :: 0 <= k < |pods| ==> pods[k].nodeName in targets
    ensures r.Success? ==> forall k :: 0 <= k < |pods| ==> Committed(pods, targets, attempts, k, r.value, problems)
    ensures r.Success? ==> (NotListed in problems <==> again.None?)
    ensures r.Success? ==>
      (Changed in problems <==> again.Some? && !Unchanged(again.value.0, again.value.1, expected, targets))
    ensures r.Success? && problems == [] ==> OneEach(targets, r.value)
    ensures r.Success? ==> (problems == [] <==>
      AllSucceed(pods, targets, attempts) && again.Some? && Unchanged(again.value.0, again.value.1, expected, targets))
  {
    hide AreTargets, IsPopulation, OutcomeOf, Collected, DistinctBy, Unchanged, IsWrong, Committed, OneEach, AllSucceed;
    problems, targets := [], map[];
    var population := ApiPopulation(nodes, pods, expected);
    if population.Failure? { return Failure(population.error), problems, targets; }
    targets := population.value;
    PopulationHosts(nodes, pods, expected, targets);
    var readings, scrapes := CollectAll(pods, population.value, attempts, schedule);
    EachIsRead(pods, targets, attempts, readings, scrapes);
    var trouble := ReadAgain(again, expected, population.value);
    problems := scrapes;
    if trouble.Some? {
      problems := problems + [trouble.value];
      StillCommitted(pods, targets, attempts, readings, scrapes, trouble.value);
    }
    r := Success(readings);
  }

  lemma {:induction false} StillCommitted(
    pods: seq<Pod>, targets: map<string, Identity>, attempts: seq<Attempt>, readings: map<string, Reading>,
    scrapes: seq<Trouble>, trouble: Trouble)
    requires |attempts| == |pods| && (forall k :: 0 <= k < |pods| ==> pods[k].nodeName in targets) && !trouble.NotRead?
    requires forall k :: 0 <= k < |pods| ==> Committed(pods, targets, attempts, k, readings, scrapes)
    ensures forall k :: 0 <= k < |pods| ==> Committed(pods, targets, attempts, k, readings, scrapes + [trouble])
  {
    hide OutcomeOf;
    forall k | 0 <= k < |pods| ensures Committed(pods, targets, attempts, k, readings, scrapes + [trouble]) {
      assert Committed(pods, targets, attempts, k, readings, scrapes);
    }
  }

  lemma {:induction false} PopulationHosts(nodes: seq<Node>, pods: seq<Pod>, expected: int, targets: map<string, Identity>)
    requires IsPopulation(nodes, pods, expected) && AreTargets(nodes, pods, targets)
    ensures DistinctBy(pods, HostName)
    ensures forall k :: 0 <= k < |pods| ==> pods[k].nodeName in targets && targets[pods[k].nodeName].node == pods[k].nodeName
    ensures forall name :: name in targets ==> exists k :: 0 <= k < |pods| && pods[k].nodeName == name
  {
    hide IsServer, IsControlPlane, DistinctBy, ContainerIdentity;
    forall k | 0 <= k < |pods| ensures pods[k].nodeName in targets && targets[pods[k].nodeName].node == pods[k].nodeName {
      assert pods[k] in pods;
    }
    forall name | name in targets ensures exists k :: 0 <= k < |pods| && pods[k].nodeName == name {
      var p :| p in pods && p.nodeName == name;
      var k :| 0 <= k < |pods| && pods[k] == p;
    }
  }

  lemma {:induction false} OutcomeIs(pods: seq<Pod>, targets: map<string, Identity>, attempts: seq<Attempt>, k: nat)
    requires k < |pods| == |attempts| && pods[k].nodeName in targets
    ensures OutcomeOf(pods, targets, attempts, k) == Outcome(targets[pods[k].nodeName], attempts[k])
  {
  }

  lemma AllRan(schedule: seq<nat>, n: nat, ran: set<nat>)
    requires IsSchedule(schedule, n) && ran == set j | 0 <= j < |schedule| :: schedule[j]
    ensures forall k :: k in ran <==> 0 <= k < n
  {
    forall k | 0 <= k < n ensures k in ran {
      ScheduleRunsAll(schedule, n, k);
    }
  }

  lemma {:induction false} AllRead(
    pods: seq<Pod>, targets: map<string, Identity>, attempts: seq<Attempt>, readings: map<string, Reading>,
    problems: seq<Trouble>)
    requires |attempts| == |pods| && (forall i :: 0 <= i < |pods| ==> pods[i].nodeName in targets)
    requires forall k :: 0 <= k < |pods| ==> Committed(pods, targets, attempts, k, readings, problems)
    requires forall x :: x in problems ==> exists k :: 0 <= k < |pods| && x == NotRead(pods[k].nodeName)
    ensures problems == [] <==> AllSucceed(pods, targets, attempts)
  {
    hide OutcomeOf;
    if problems != [] {
      var x := problems[0];
      assert x in problems;
      var k :| 0 <= k < |pods| && x == NotRead(pods[k].nodeName);
      assert Committed(pods, targets, attempts, k, readings, problems);
    }
    forall k | 0 <= k < |pods| && problems == [] ensures OutcomeOf(pods, targets, attempts, k).Some? {
      assert Committed(pods, targets, attempts, k, readings, problems);
    }
  }

  lemma {:induction false} ReadOneEach(
    pods: seq<Pod>, targets: map<string, Identity>, attempts: seq<Attempt>, readings: map<string, Reading>)
    requires |attempts| == |pods| && (forall i :: 0 <= i < |pods| ==> pods[i].nodeName in targets)
    requires forall name :: name in targets ==> exists k :: 0 <= k < |pods| && pods[k].nodeName == name
    requires forall name :: name in readings ==> exists k :: 0 <= k < |pods| && pods[k].nodeName == name
    requires forall k :: 0 <= k < |pods| ==> Committed(pods, targets, attempts, k, readings, [])
    ensures OneEach(targets, readings)
  {
    hide ContainerIdentity;
    forall name | name in targets ensures name in readings && readings[name].identity == targets[name] {
      var k :| 0 <= k < |pods| && pods[k].nodeName == name;
      assert Committed(pods, targets, attempts, k, readings, []);
    }
    forall name | name in readings ensures name in targets {
      var k :| 0 <= k < |pods| && pods[k].nodeName == name;
    }
  }

  lemma {:induction false} EachIsRead(
    pods: seq<Pod>, targets: map<string, Identity>, attempts: seq<Attempt>, readings: map<string, Reading>,
    problems: seq<Trouble>)
    requires |attempts| == |pods| && (forall i :: 0 <= i < |pods| ==> pods[i].nodeName in targets)
    requires forall name :: name in targets ==> exists k :: 0 <= k < |pods| && pods[k].nodeName == name
    requires Collected(pods, targets, attempts, Below(|pods|), readings, problems)
    ensures forall k :: 0 <= k < |pods| ==> Committed(pods, targets, attempts, k, readings, problems)
    ensures forall x :: x in problems ==> x.NotRead?
    ensures problems == [] <==> AllSucceed(pods, targets, attempts)
    ensures problems == [] ==> OneEach(targets, readings)
  {
    hide Committed, OneEach, AllSucceed;
    forall k | 0 <= k < |pods| ensures Committed(pods, targets, attempts, k, readings, problems) {
      assert k in Below(|pods|);
    }
    AllRead(pods, targets, attempts, readings, problems);
    if problems == [] {
      ReadOneEach(pods, targets, attempts, readings);
    }
  }
}
