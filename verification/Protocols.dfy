/** Message code allocation between the sub-protocols of a connection (`p2p/peer.go`, `p2p/Protocol.go`). */
module Protocols {
  import opened Basics

  const BASE_PROTOCOL_LENGTH: int := 16

  datatype Cap = Cap(name: string, version: int)

  datatype Protocol = Protocol(name: string, version: int, length: nat)

  /** A protocol with the first message code of its range (protoRW). */
  datatype Running = Running(proto: Protocol, offset: int) {
    predicate Handles(code: int) {
      offset <= code < offset + proto.length
    }
  }

  // ---- Go's string order ----

  predicate Less(a: string, b: string) {
    b != [] && (a == [] || a[0] < b[0] || (a[0] == b[0] && Less(a[1..], b[1..])))
  }

  lemma {:induction false} LessTotal(a: string, b: string)
    ensures Less(a, b) || a == b || Less(b, a)
    ensures !(Less(a, b) && Less(b, a)) && !Less(a, a)
  {
    if a != [] && b != [] {
      LessTotal(a[1..], b[1..]);
      assert a == [a[0]] + a[1..] && b == [b[0]] + b[1..];
    }
    if a != [] { LessIrreflexive(a); }
  }

  lemma {:induction false} LessIrreflexive(a: string)
    ensures !Less(a, a)
  {
    if a != [] { LessIrreflexive(a[1..]); }
  }

  lemma {:induction false} LessTransitive(a: string, b: string, c: string)
    requires Less(a, b) && Less(b, c)
    ensures Less(a, c)
  {
    if a != [] && a[0] == b[0] && b[0] == c[0] { LessTransitive(a[1..], b[1..], c[1..]); }
  }

  // ---- Sorting capabilities ----

  /** capsByNameAndVersion, read as "not after". */
  predicate NotAfter(a: Cap, b: Cap) {
    Less(a.name, b.name) || (a.name == b.name && a.version <= b.version)
  }

  lemma NotAfterOrders(a: Cap, b: Cap, c: Cap)
    ensures NotAfter(a, b) || NotAfter(b, a)
    ensures NotAfter(a, b) && NotAfter(b, c) ==> NotAfter(a, c)
  {
    LessTotal(a.name, b.name);
    if Less(a.name, b.name) && Less(b.name, c.name) { LessTransitive(a.name, b.name, c.name); }
  }

  ghost predicate Sorted(s: seq<Cap>) {
    forall i, j :: 0 <= i < j < |s| ==> NotAfter(s[i], s[j])
  }

  function Insert(s: seq<Cap>, c: Cap): (r: seq<Cap>) {
    if s == [] || NotAfter(c, s[0]) then [c] + s else [s[0]] + Insert(s[1..], c)
  }

  lemma {:induction false} InsertSorts(s: seq<Cap>, c: Cap)
    requires Sorted(s)
    ensures Sorted(Insert(s, c))
    ensures forall x :: x in Insert(s, c) <==> x == c || x in s
  {
    if s == [] {
    } else if NotAfter(c, s[0]) {
      forall j | 0 <= j < |s| ensures NotAfter(c, s[j]) { NotAfterOrders(c, s[0], s[j]); }
    } else {
      InsertSorts(s[1..], c);
      NotAfterOrders(c, s[0], c);
      var t := Insert(s[1..], c);
      forall j | 0 <= j < |t| ensures NotAfter(s[0], t[j]) { assert t[j] == c || t[j] in s[1..]; }
      assert s == [s[0]] + s[1..];
    }
  }

  /** sort.Sort(capsByNameAndVersion(caps)) */
  function SortCaps(caps: seq<Cap>): (r: seq<Cap>)
    ensures Sorted(r) && forall x :: x in r <==> x in caps
  {
    if caps == [] then []
    else
      var rest := SortCaps(caps[1..]);
      InsertSorts(rest, caps[0]);
      assert caps == [caps[0]] + caps[1..];
      Insert(rest, caps[0])
  }

  // ---- Layouts ----

  /** The first protocol with this name and version. */
  function FirstMatch(protocols: seq<Protocol>, cap: Cap): Option<Protocol> {
    if protocols == [] then None
    else if protocols[0].name == cap.name && protocols[0].version == cap.version then Some(protocols[0])
    else FirstMatch(protocols[1..], cap)
  }

  lemma {:induction false} FirstMatchFits(protocols: seq<Protocol>, cap: Cap)
    ensures FirstMatch(protocols, cap).Some? ==>
              var p := FirstMatch(protocols, cap).value;
              p in protocols && p.name == cap.name && p.version == cap.version
    ensures FirstMatch(protocols, cap).None? ==>
              forall p :: p in protocols ==> p.name != cap.name || p.version != cap.version
  {
    if protocols != [] { FirstMatchFits(protocols[1..], cap); }
  }

  /** Both ends speak this version of this protocol. */
  ghost predicate Shared(protocols: seq<Protocol>, caps: seq<Cap>, cap: Cap) {
    cap in caps && FirstMatch(protocols, cap).Some?
  }

  /** The code after the last range. */
  function End(runs: seq<Running>): int {
    if runs == [] then BASE_PROTOCOL_LENGTH else runs[|runs| - 1].offset + runs[|runs| - 1].proto.length
  }

  /** Ranges follow each other without gap or overlap from code 16 on. */
  ghost predicate Contiguous(runs: seq<Running>) {
    forall i {:trigger Follows(runs, i)} :: 0 <= i < |runs| ==> Follows(runs, i)
  }

  ghost predicate Follows(runs: seq<Running>, i: int)
    requires 0 <= i < |runs|
  {
    runs[i].offset == if i == 0 then BASE_PROTOCOL_LENGTH else runs[i - 1].offset + runs[i - 1].proto.length
  }

  /** Each range belongs to a protocol both ends speak, in its highest shared version. */
  ghost predicate Serves(protocols: seq<Protocol>, caps: seq<Cap>, r: Running) {
    var cap := Cap(r.proto.name, r.proto.version);
    && Shared(protocols, caps, cap) && FirstMatch(protocols, cap) == Some(r.proto)
    && forall other {:trigger Shared(protocols, caps, other)} ::
         Shared(protocols, caps, other) && other.name == cap.name ==> other.version <= cap.version
  }

  ghost predicate Covers(runs: seq<Running>, name: string) {
    exists i :: 0 <= i < |runs| && runs[i].proto.name == name
  }

  /** One range per shared name, in name order. */
  ghost predicate IsLayout(protocols: seq<Protocol>, caps: seq<Cap>, runs: seq<Running>) {
    && Contiguous(runs)
    && (forall i, j :: 0 <= i < j < |runs| ==> Less(runs[i].proto.name, runs[j].proto.name))
    && (forall i :: 0 <= i < |runs| ==> Serves(protocols, caps, runs[i]))
    && (forall cap {:trigger Shared(protocols, caps, cap)} :: Shared(protocols, caps, cap) ==> Covers(runs, cap.name))
  }

  lemma EmptyLayout(protocols: seq<Protocol>)
    ensures IsLayout(protocols, [], [])
  {
  }

  /** Unmatched capabilities change nothing. */
  lemma SkipKeeps(protocols: seq<Protocol>, done: seq<Cap>, cap: Cap, runs: seq<Running>)
    requires IsLayout(protocols, done, runs) && FirstMatch(protocols, cap).None?
    ensures IsLayout(protocols, done + [cap], runs)
  {
    assert forall c :: Shared(protocols, done + [cap], c) <==> Shared(protocols, done, c);
    forall i | 0 <= i < |runs|
      ensures Serves(protocols, done + [cap], runs[i])
    {
      assert Serves(protocols, done, runs[i]);
    }
  }

  /** In sorted order, only the last range can have the next capability's name, and then a version no higher. */
  lemma LastIsLatest(protocols: seq<Protocol>, done: seq<Cap>, cap: Cap, runs: seq<Running>, i: nat)
    requires IsLayout(protocols, done, runs) && Sorted(done + [cap]) && i < |runs|
    ensures runs[i].proto.name == cap.name ==> i == |runs| - 1 && runs[i].proto.version <= cap.version
    ensures runs[i].proto.name != cap.name ==> Less(runs[i].proto.name, cap.name)
  {
    BeforeNext(protocols, done, cap, runs[i]) by { assert Serves(protocols, done, runs[i]); }
    LessIrreflexive(cap.name);
    if runs[i].proto.name == cap.name && i < |runs| - 1 {
      BeforeNext(protocols, done, cap, runs[i + 1]) by { assert Serves(protocols, done, runs[i + 1]); }
      LessTotal(cap.name, runs[i + 1].proto.name);
    }
  }

  lemma BeforeNext(protocols: seq<Protocol>, done: seq<Cap>, cap: Cap, r: Running)
    requires Sorted(done + [cap]) && Serves(protocols, done, r)
    ensures NotAfter(Cap(r.proto.name, r.proto.version), cap)
  {
    var c := Cap(r.proto.name, r.proto.version);
    var k :| 0 <= k < |done| && done[k] == c;
    assert (done + [cap])[k] == c && (done + [cap])[|done|] == cap;
  }

  lemma OthersStillServe(protocols: seq<Protocol>, done: seq<Cap>, cap: Cap, r: Running)
    requires Serves(protocols, done, r) && r.proto.name != cap.name
    ensures Serves(protocols, done + [cap], r)
  {
    assert forall c :: Shared(protocols, done + [cap], c) && c != cap ==> Shared(protocols, done, c);
  }

  lemma NextServes(protocols: seq<Protocol>, done: seq<Cap>, cap: Cap, r: Running)
    requires Sorted(done + [cap]) && FirstMatch(protocols, cap) == Some(r.proto)
    ensures r.proto.name == cap.name && r.proto.version == cap.version && Serves(protocols, done + [cap], r)
  {
    FirstMatchFits(protocols, cap);
    forall other | Shared(protocols, done + [cap], other) && other.name == cap.name
      ensures other.version <= cap.version
    {
      if other != cap {
        var k :| 0 <= k < |done| && done[k] == other;
        assert (done + [cap])[k] == other && (done + [cap])[|done|] == cap;
        LessIrreflexive(cap.name);
      }
    }
  }

  /** A new name gets the next range. */
  lemma AppendKeeps(protocols: seq<Protocol>, done: seq<Cap>, cap: Cap, runs: seq<Running>, p: Protocol)
    requires IsLayout(protocols, done, runs) && Sorted(done + [cap]) && FirstMatch(protocols, cap) == Some(p)
    requires !Covers(runs, cap.name)
    ensures IsLayout(protocols, done + [cap], runs + [Running(p, End(runs))])
  {
    hide Less, FirstMatch, Serves, Shared;
    var all, now := done + [cap], runs + [Running(p, End(runs))];
    NextServes(protocols, done, cap, now[|runs|]);
    forall i | 0 <= i < |runs| ensures Serves(protocols, all, runs[i]) && Less(runs[i].proto.name, cap.name) {
      LastIsLatest(protocols, done, cap, runs, i);
      OthersStillServe(protocols, done, cap, runs[i]);
    }
    forall i | 0 <= i < |now| ensures Follows(now, i) { assert i < |runs| ==> Follows(runs, i); }
    CoversMore(protocols, done, cap, runs, now);
  }

  /** A name that already has the last range gets that range again, with the length of the higher version. */
  lemma ReplaceKeeps(protocols: seq<Protocol>, done: seq<Cap>, cap: Cap, runs: seq<Running>, p: Protocol)
    requires IsLayout(protocols, done, runs) && Sorted(done + [cap]) && FirstMatch(protocols, cap) == Some(p)
    requires Covers(runs, cap.name)
    ensures runs != [] && runs[|runs| - 1].proto.name == cap.name
    ensures IsLayout(protocols, done + [cap], runs[..|runs| - 1] + [Running(p, runs[|runs| - 1].offset)])
  {
    hide Less, FirstMatch, Serves, Shared, Follows;
    var k :| 0 <= k < |runs| && runs[k].proto.name == cap.name;
    LastIsLatest(protocols, done, cap, runs, k);
    var all, now := done + [cap], runs[..k] + [Running(p, runs[k].offset)];
    NextServes(protocols, done, cap, now[k]);
    forall i | 0 <= i < k ensures Serves(protocols, all, runs[i]) && Less(runs[i].proto.name, cap.name) {
      LastIsLatest(protocols, done, cap, runs, i);
      OthersStillServe(protocols, done, cap, runs[i]);
    }
    ReplaceLastFollows(runs, p);
    CoversMore(protocols, done, cap, runs, now);
  }

  lemma ReplaceLastFollows(runs: seq<Running>, p: Protocol)
    requires runs != [] && Contiguous(runs)
    ensures Contiguous(runs[..|runs| - 1] + [Running(p, runs[|runs| - 1].offset)])
  {
    var now := runs[..|runs| - 1] + [Running(p, runs[|runs| - 1].offset)];
    forall i | 0 <= i < |now| ensures Follows(now, i) { assert Follows(runs, i); }
  }

  lemma CoversMore(protocols: seq<Protocol>, done: seq<Cap>, cap: Cap, runs: seq<Running>, now: seq<Running>)
    requires IsLayout(protocols, done, runs) && now != [] && now[|now| - 1].proto.name == cap.name
    requires forall i :: 0 <= i < |runs| ==> i < |now| && now[i].proto.name == runs[i].proto.name
    ensures forall c {:trigger Shared(protocols, done + [cap], c)} ::
              Shared(protocols, done + [cap], c) ==> Covers(now, c.name)
  {
    forall c | Shared(protocols, done + [cap], c)
      ensures Covers(now, c.name)
    {
      if c in done {
        assert Shared(protocols, done, c);
        var i :| 0 <= i < |runs| && runs[i].proto.name == c.name;
        assert now[i].proto.name == c.name;
      } else {
        assert now[|now| - 1].proto.name == c.name;
      }
    }
  }

  // ---- matchProtocols ----

  /** The result map holds exactly the ranges, by name. */
  ghost predicate Holds(result: map<string, Running>, runs: seq<Running>) {
    && (forall i :: 0 <= i < |runs| ==> runs[i].proto.name in result && result[runs[i].proto.name] == runs[i])
    && (forall n :: n in result ==> Covers(runs, n))
  }

  lemma HoldsAppended(result: map<string, Running>, runs: seq<Running>, r: Running)
    requires Holds(result, runs) && !Covers(runs, r.proto.name)
    ensures Holds(result[r.proto.name := r], runs + [r])
  {
    var now := runs + [r];
    assert now[|runs|] == r;
    forall n | n in result[r.proto.name := r] ensures Covers(now, n) {
      if n != r.proto.name { var i :| 0 <= i < |runs| && runs[i].proto.name == n; assert now[i].proto.name == n; }
    }
  }

  lemma HoldsReplaced(result: map<string, Running>, runs: seq<Running>, r: Running)
    requires Holds(result, runs) && runs != [] && runs[|runs| - 1].proto.name == r.proto.name
    requires forall i, j :: 0 <= i < j < |runs| ==> runs[i].proto.name != runs[j].proto.name
    ensures Holds(result[r.proto.name := r], runs[..|runs| - 1] + [r])
  {
    var now := runs[..|runs| - 1] + [r];
    assert now[|runs| - 1] == r;
    forall n | n in result[r.proto.name := r] ensures Covers(now, n) {
      if n != r.proto.name { var i :| 0 <= i < |runs| && runs[i].proto.name == n; assert now[i].proto.name == n; }
    }
  }

  lemma NamesDiffer(protocols: seq<Protocol>, caps: seq<Cap>, runs: seq<Running>)
    requires IsLayout(protocols, caps, runs)
    ensures forall i, j :: 0 <= i < j < |runs| ==> runs[i].proto.name != runs[j].proto.name
  {
    forall i, j | 0 <= i < j < |runs|
      ensures runs[i].proto.name != runs[j].proto.name
    {
      LessIrreflexive(runs[i].proto.name);
    }
  }

  method FindProtocol(protocols: seq<Protocol>, cap: Cap) returns (r: Option<Protocol>)
    ensures r == FirstMatch(protocols, cap)
  {
    for i := 0 to |protocols|
      invariant FirstMatch(protocols, cap) == FirstMatch(protocols[i..], cap)
    {
      if protocols[i].name == cap.name && protocols[i].version == cap.version {
        return Some(protocols[i]);
      }
    }
    r := None;
  }

  /** The ranges of all names both ends share: a unique layout in name order from code 16. */
  method MatchProtocols(protocols: seq<Protocol>, caps: seq<Cap>) returns (result: map<string, Running>)
    ensures exists runs :: IsLayout(protocols, caps, runs) && Holds(result, runs)
    ensures forall n :: n in result <==> exists cap :: Shared(protocols, caps, cap) && cap.name == n
    ensures forall n :: n in result ==> result[n].proto.name == n && Serves(protocols, caps, result[n])
  {
    EmptyLayout(protocols);
    hide Less, FirstMatch, Serves, Shared, Contiguous;
    var sorted := SortCaps(caps);
    var offset := BASE_PROTOCOL_LENGTH;
    ghost var runs: seq<Running> := [];
    result := map[];
    for i := 0 to |sorted|
      invariant IsLayout(protocols, sorted[..i], runs) && Holds(result, runs) && offset == End(runs)
    {
      var cap := sorted[i];
      ghost var done := sorted[..i];
      assert sorted[..i + 1] == done + [cap];
      var proto := FindProtocol(protocols, cap);
      FirstMatchFits(protocols, cap);
      if proto.Some? {
        if cap.name in result {
          ReplaceKeeps(protocols, done, cap, runs, proto.value);
          NamesDiffer(protocols, done, runs);
          offset := offset - result[cap.name].proto.length;
          HoldsReplaced(result, runs, Running(proto.value, offset));
          runs := runs[..|runs| - 1] + [Running(proto.value, offset)];
        } else {
          assert !Covers(runs, cap.name);
          AppendKeeps(protocols, done, cap, runs, proto.value);
          HoldsAppended(result, runs, Running(proto.value, offset));
          runs := runs + [Running(proto.value, offset)];
        }
        result := result[cap.name := Running(proto.value, offset)];
        offset := offset + proto.value.length;
      } else {
        SkipKeeps(protocols, done, cap, runs);
      }
    }
    assert sorted[..|sorted|] == sorted;
    SameMembers(protocols, sorted, caps, runs);
    ResultServes(protocols, caps, runs, result);
  }

  /** What the layout means for the map that holds it. */
  lemma ResultServes(protocols: seq<Protocol>, caps: seq<Cap>, runs: seq<Running>, result: map<string, Running>)
    requires IsLayout(protocols, caps, runs) && Holds(result, runs)
    ensures forall n :: n in result <==> exists cap :: Shared(protocols, caps, cap) && cap.name == n
    ensures forall n :: n in result ==> result[n].proto.name == n && Serves(protocols, caps, result[n])
  {
    hide Less, FirstMatch;
    forall n | n in result
      ensures (exists cap :: Shared(protocols, caps, cap) && cap.name == n) && result[n].proto.name == n
              && Serves(protocols, caps, result[n])
    {
      assert Covers(runs, n);
      var i :| 0 <= i < |runs| && runs[i].proto.name == n;
      assert Serves(protocols, caps, runs[i]);
      assert Shared(protocols, caps, Cap(runs[i].proto.name, runs[i].proto.version));
    }
    forall cap | Shared(protocols, caps, cap) ensures cap.name in result {
      assert Covers(runs, cap.name);
      var i :| 0 <= i < |runs| && runs[i].proto.name == cap.name;
    }
  }

  lemma SameMembers(protocols: seq<Protocol>, caps: seq<Cap>, others: seq<Cap>, runs: seq<Running>)
    requires IsLayout(protocols, caps, runs) && forall c :: c in caps <==> c in others
    ensures IsLayout(protocols, others, runs)
  {
    hide Less, FirstMatch;
    assert forall c :: Shared(protocols, others, c) <==> Shared(protocols, caps, c);
    forall i | 0 <= i < |runs| ensures Serves(protocols, others, runs[i]) { assert Serves(protocols, caps, runs[i]); }
  }

  // ---- Ranges do not overlap ----

  lemma {:induction false} RangesAscend(runs: seq<Running>, i: nat, j: nat)
    requires Contiguous(runs) && i < j < |runs|
    ensures BASE_PROTOCOL_LENGTH <= runs[i].offset && runs[i].offset + runs[i].proto.length <= runs[j].offset
  {
    FirstCode(runs, i);
    assert Follows(runs, j);
    if i < j - 1 { RangesAscend(runs, i, j - 1); }
  }

  lemma {:induction false} FirstCode(runs: seq<Running>, i: nat)
    requires Contiguous(runs) && i < |runs|
    ensures BASE_PROTOCOL_LENGTH <= runs[i].offset
  {
    assert Follows(runs, i);
    if i > 0 { FirstCode(runs, i - 1); }
  }

  /** A code belongs to at most one protocol, and no base protocol code to any. */
  lemma OneHandler(runs: seq<Running>, code: int, i: nat, j: nat)
    requires Contiguous(runs) && i < |runs| && j < |runs| && runs[i].Handles(code) && runs[j].Handles(code)
    ensures i == j && BASE_PROTOCOL_LENGTH <= code
  {
    FirstCode(runs, i);
    if i < j { RangesAscend(runs, i, j); }
    if j < i { RangesAscend(runs, j, i); }
  }

  // ---- Both ends agree ----

  function CapsOf(protocols: seq<Protocol>): (caps: seq<Cap>)
    ensures |caps| == |protocols|
            && forall i :: 0 <= i < |caps| ==> caps[i] == Cap(protocols[i].name, protocols[i].version)
  {
    seq(|protocols|, i requires 0 <= i < |protocols| => Cap(protocols[i].name, protocols[i].version))
  }

  /** Where both ends have a protocol they give it the same number of codes. */
  ghost predicate LengthsAgree(ours: seq<Protocol>, theirs: seq<Protocol>) {
    forall cap {:trigger FirstMatch(ours, cap)} :: FirstMatch(ours, cap).Some? && FirstMatch(theirs, cap).Some? ==>
      FirstMatch(ours, cap).value.length == FirstMatch(theirs, cap).value.length
  }

  lemma HasCap(protocols: seq<Protocol>, cap: Cap)
    ensures cap in CapsOf(protocols) <==> FirstMatch(protocols, cap).Some?
  {
    FirstMatchFits(protocols, cap);
    if FirstMatch(protocols, cap).Some? {
      var i :| 0 <= i < |protocols| && protocols[i] == FirstMatch(protocols, cap).value;
      assert CapsOf(protocols)[i] == cap;
    }
  }

  lemma SharedIsMutual(ours: seq<Protocol>, theirs: seq<Protocol>, cap: Cap)
    ensures Shared(ours, CapsOf(theirs), cap) <==> Shared(theirs, CapsOf(ours), cap)
  {
    HasCap(ours, cap);
    HasCap(theirs, cap);
  }

  /** The i-th ranges at both ends agree, given that the earlier ones do. */
  lemma SameAt(ours: seq<Protocol>, theirs: seq<Protocol>, xs: seq<Running>, ys: seq<Running>, i: nat)
    requires LengthsAgree(ours, theirs) && IsLayout(ours, CapsOf(theirs), xs) && IsLayout(theirs, CapsOf(ours), ys)
    requires i < |xs| && i <= |ys| && forall k :: 0 <= k < i ==> ys[k].proto.name == xs[k].proto.name
    ensures i < |ys| && !Less(xs[i].proto.name, ys[i].proto.name)
  {
    hide Less, FirstMatch;
    var cap := Cap(xs[i].proto.name, xs[i].proto.version);
    assert Serves(ours, CapsOf(theirs), xs[i]);
    SharedIsMutual(ours, theirs, cap);
    assert Shared(theirs, CapsOf(ours), cap);
    var j :| 0 <= j < |ys| && ys[j].proto.name == cap.name;
    NamesDiffer(ours, CapsOf(theirs), xs);
    assert j >= i;
    if j > i {
      assert Less(ys[i].proto.name, ys[j].proto.name);
      LessTotal(ys[i].proto.name, xs[i].proto.name);
    } else {
      LessIrreflexive(cap.name);
    }
  }

  lemma SameVersion(ours: seq<Protocol>, theirs: seq<Protocol>, x: Running, y: Running)
    requires LengthsAgree(ours, theirs) && Serves(ours, CapsOf(theirs), x) && Serves(theirs, CapsOf(ours), y)
             && x.proto.name == y.proto.name
    ensures x.proto == y.proto
  {
    var c, d := Cap(x.proto.name, x.proto.version), Cap(y.proto.name, y.proto.version);
    SharedIsMutual(ours, theirs, c);
    SharedIsMutual(ours, theirs, d);
    assert Shared(theirs, CapsOf(ours), c) && Shared(ours, CapsOf(theirs), d);
    assert c == d;
    assert FirstMatch(ours, c).Some?;
  }

  /** Two ends that advertise their own protocols compute the same ranges. */
  lemma {:induction false} EndsAgree(ours: seq<Protocol>, theirs: seq<Protocol>, xs: seq<Running>, ys: seq<Running>,
                                     n: nat)
    requires LengthsAgree(ours, theirs) && LengthsAgree(theirs, ours)
    requires IsLayout(ours, CapsOf(theirs), xs) && IsLayout(theirs, CapsOf(ours), ys) && n <= |xs|
    ensures n <= |ys| && xs[..n] == ys[..n]
    ensures n == |xs| ==> xs == ys
  {
    hide Less, FirstMatch, Serves, Shared;
    if n > 0 {
      var i := n - 1;
      EndsAgree(ours, theirs, xs, ys, i);
      assert forall k :: 0 <= k < i ==> xs[..i][k] == ys[..i][k];
      SameAt(ours, theirs, xs, ys, i);
      SameAt(theirs, ours, ys, xs, i);
      LessTotal(xs[i].proto.name, ys[i].proto.name);
      SameVersion(ours, theirs, xs[i], ys[i]);
      assert Follows(xs, i) && Follows(ys, i);
      assert xs[..n] == xs[..i] + [xs[i]] && ys[..n] == ys[..i] + [ys[i]];
    }
    if n == |xs| && n < |ys| {
      assert forall k :: 0 <= k < n ==> xs[..n][k] == ys[..n][k];
      SameAt(theirs, ours, ys, xs, n);
    }
  }

  // ---- Messages ----

  /** protoRW.WriteMsg: the code on the wire, or an error for a code the protocol does not have. */
  function WriteCode(r: Running, code: nat): Option<int> {
    if code >= r.proto.length then None else Some(r.offset + code)
  }

  /** Peer.getProto over the running protocols, in any order. */
  method GetProto(running: map<string, Running>, code: int) returns (r: Option<Running>)
    ensures r.Some? ==> r.value in running.Values && r.value.Handles(code)
    ensures r.None? ==> forall n :: n in running ==> !running[n].Handles(code)
  {
    var todo := running.Keys;
    while todo != {}
      invariant todo <= running.Keys
      invariant forall n :: n in running && n !in todo ==> !running[n].Handles(code)
      decreases todo
    {
      var n :| n in todo;
      if running[n].Handles(code) {
        return Some(running[n]);
      }
      todo := todo - {n};
    }
    r := None;
  }

  /** A code written by a protocol at one end reaches that protocol, and no other, at the other end, as the same
      code. */
  lemma CodeArrives(ours: seq<Protocol>, theirs: seq<Protocol>, xs: seq<Running>, ys: seq<Running>,
                    i: nat, code: nat, running: map<string, Running>, r: Running)
    requires LengthsAgree(ours, theirs) && LengthsAgree(theirs, ours)
    requires IsLayout(ours, CapsOf(theirs), xs) && IsLayout(theirs, CapsOf(ours), ys) && Holds(running, ys)
    requires i < |xs| && WriteCode(xs[i], code).Some?
    ensures exists n :: n in running && running[n].Handles(WriteCode(xs[i], code).value)
    ensures r in running.Values && r.Handles(WriteCode(xs[i], code).value) ==>
              r.proto == xs[i].proto && WriteCode(xs[i], code).value - r.offset == code
  {
    hide Less, FirstMatch, Serves, Shared;
    EndsAgree(ours, theirs, xs, ys, |xs|);
    var wire := WriteCode(xs[i], code).value;
    assert running[ys[i].proto.name] == ys[i] && ys[i].Handles(wire);
    if r in running.Values && r.Handles(wire) {
      var n :| n in running && running[n] == r;
      var j :| 0 <= j < |ys| && ys[j].proto.name == n;
      OneHandler(ys, wire, i, j);
    }
  }
}
