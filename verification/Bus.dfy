// The registry of a bus: a table in shared memory that terminals change under a
// lock, and the view of it that each terminal keeps. One step of the system is
// what one terminal does while it holds the lock.
module Bus {
  import IdTables
  import opened Options
  import opened Sets

  const MAX_TERMINALS := 64
  const MAX_PIPES := 1024

  datatype Pipe = Pipe(key: int, src: int, dst: int)

  // What is shared.
  datatype Head = Head(tver: int, terms: seq<int>, pver: int, ckey: int, pipes: seq<Pipe>)

  // What one terminal keeps; its tables map peers to pipes.
  datatype Terminal = Terminal(self: int, tver: int, pver: int, terms: seq<int>,
                               outs: map<int, Pipe>, ins: map<int, Pipe>)

  // The shared memory, if it has been made, and the live terminals. An assertion
  // of the program that fails leaves the system broken.
  datatype System = System(head: Option<Head>, locals: map<int, Terminal>, broken: bool)

  // What IdTable.Add does to the contents of a table of MAX_TERMINALS slots that
  // has no entry for the id yet.
  function TableAdd(m: map<int, Pipe>, id: int, p: Pipe): Option<map<int, Pipe>> {
    if id >= 0 && |m| < MAX_TERMINALS then Some(m[id := p]) else None
  }

  method AddToTable(t: IdTables.IdTable<Pipe>, id: int, p: Pipe) returns (ret: int)
    requires t.Valid() && IdTables.Unique(t.table[..]) && t.table.Length == MAX_TERMINALS && id !in t.M()
    modifies t.table
    ensures t.Valid() && IdTables.Unique(t.table[..]) && (ret == 0 || ret == -1)
    ensures var m := TableAdd(old(t.M()), id, p);
            && (ret == 0 <==> m.Some?)
            && t.M() == if m.Some? then m.value else old(t.M())
  {
    IdTables.CountIsSize(t.table[..]);
    ret := t.Add(id, Some(p));
  }

  // ------------------------------------------------------------------- actions

  function UpdateTerminals(t: Terminal, h: Head): Terminal { t.(tver := h.tver, terms := h.terms) }

  // The scan of the shared pipes from i on; None if an addition fails.
  function Scan(t: Terminal, pipes: seq<Pipe>, i: nat): Option<Terminal>
    decreases |pipes| - i
  {
    if i >= |pipes| then Some(t)
    else
      var p := pipes[i];
      if p.src == t.self && p.dst !in t.outs then
        var m := TableAdd(t.outs, p.dst, p);
        if m.None? then None else Scan(t.(outs := m.value), pipes, i + 1)
      else if p.dst == t.self && p.src !in t.ins then
        var m := TableAdd(t.ins, p.src, p);
        if m.None? then None else Scan(t.(ins := m.value), pipes, i + 1)
      else Scan(t, pipes, i + 1)
  }

  function UpdatePipes(t: Terminal, h: Head): Option<Terminal> { Scan(t.(pver := h.pver), h.pipes, 0) }

  // The terminal's address is in the shared table afterwards, unless it is full.
  function Attach(h: Head, self: int): Option<Head> {
    if self in h.terms then Some(h)
    else if |h.terms| >= MAX_TERMINALS then None
    else Some(h.(terms := h.terms + [self], tver := h.tver + 1))
  }

  function Keep(s: System, h: Head, t: Option<Terminal>): System {
    if t.None? then s.(broken := true) else System(Some(h), s.locals[t.value.self := t.value], s.broken)
  }

  // The table as its first terminal makes it.
  function FirstHead(self: int): Head { Head(1, [self], 1, 0, []) }

  // bus_create.
  function Create(s: System, self: int): System {
    var h := if s.head.None? then Some(FirstHead(self)) else Attach(s.head.value, self);
    if h.None? then s
    else Keep(s, h.value, UpdatePipes(UpdateTerminals(Terminal(self, 0, 0, [], map[], map[]), h.value), h.value))
  }

  // Whether a pipe may be made: checked under the lock.
  predicate MayRegister(h: Head, t: Terminal, to: int) {
    t.pver == h.pver && |h.pipes| < MAX_PIPES && to in h.terms && to != t.self
  }

  // _bus_register_pipe, which a terminal calls when it knows of no pipe to the peer.
  function Register(s: System, h: Head, t: Terminal, to: int): System {
    if !MayRegister(h, t, to) then s
    else
      var p := Pipe(h.ckey + 1, t.self, to);
      var m := TableAdd(t.outs, to, p);
      var h' := Grown(h, p);
      Keep(s, h', if m.None? then None else Some(t.(outs := m.value, pver := h'.pver)))
  }

  datatype Action =
    | Creates(self: int)
    | PollsTerminals(self: int)
    | PollsPipes(self: int)
    | Registers(self: int, to: int)
    | Releases(self: int)

  // Addresses are not negative, and no two live terminals share one.
  predicate Enabled(s: System, a: Action) {
    match a
    case Creates(self) => self >= 0 && self !in s.locals
    case Registers(self, to) => self in s.locals && s.head.Some? && to !in s.locals[self].outs
    case _ => a.self in s.locals && s.head.Some?
  }

  function Apply(s: System, a: Action): System
    requires Enabled(s, a)
  {
    match a
    case Creates(self) => Create(s, self)
    case PollsTerminals(self) =>
      var h, t := s.head.value, s.locals[self];
      if t.tver == h.tver then s else Keep(s, h, Some(UpdateTerminals(t, h)))
    case PollsPipes(self) =>
      var h, t := s.head.value, s.locals[self];
      if t.pver == h.pver then s else Keep(s, h, UpdatePipes(t, h))
    case Registers(self, to) => Register(s, s.head.value, s.locals[self], to)
    case Releases(self) => s.(locals := s.locals - {self})
  }

  // ----------------------------------------------------------------- invariant

  ghost predicate TermsOk(terms: seq<int>) {
    && 0 < |terms| <= MAX_TERMINALS && (forall i :: 0 <= i < |terms| ==> terms[i] >= 0)
    && forall i, j :: 0 <= i < j < |terms| ==> terms[i] != terms[j]
  }

  // Pipes join different registered terminals, no two join the same ones in the
  // same direction, and each has its own key.
  ghost predicate PipesOk(pipes: seq<Pipe>, terms: seq<int>) {
    && (forall i :: 0 <= i < |pipes| ==> pipes[i].src in terms && pipes[i].dst in terms && pipes[i].src != pipes[i].dst)
    && (forall i :: 0 <= i < |pipes| ==> pipes[i].key == i + 1)
    && forall i, j :: 0 <= i < j < |pipes| ==> pipes[i].src != pipes[j].src || pipes[i].dst != pipes[j].dst
  }

  // Both versions tell how much has been written.
  ghost predicate HeadOk(h: Head) {
    && TermsOk(h.terms) && PipesOk(h.pipes, h.terms) && |h.pipes| <= MAX_PIPES
    && h.tver == |h.terms| && h.pver == |h.pipes| + 1 && h.ckey == |h.pipes|
  }

  // The tables hold exactly the pipes from and to this terminal.
  ghost predicate OutsOk(t: Terminal, pipes: seq<Pipe>) {
    && (forall i :: 0 <= i < |pipes| && pipes[i].src == t.self ==>
       pipes[i].dst in t.outs && t.outs[pipes[i].dst] == pipes[i])
    && forall to :: to in t.outs ==> t.outs[to] in pipes && t.outs[to].src == t.self && t.outs[to].dst == to
  }

  ghost predicate InsOk(t: Terminal, pipes: seq<Pipe>) {
    && (forall i :: 0 <= i < |pipes| && pipes[i].dst == t.self ==>
       pipes[i].src in t.ins && t.ins[pipes[i].src] == pipes[i])
    && forall src :: src in t.ins ==> t.ins[src] in pipes && t.ins[src].dst == t.self && t.ins[src].src == src
  }

  // A view is that of an earlier moment, but no pipe from this terminal is ever
  // missing in it.
  ghost predicate LocalOk(t: Terminal, h: Head, self: int) {
    && t.self == self && self in h.terms
    && 0 < t.tver <= |h.terms| && t.terms == h.terms[..t.tver]
    && 0 < t.pver <= |h.pipes| + 1 && OutsOk(t, h.pipes) && InsOk(t, h.pipes[..t.pver - 1])
  }

  ghost predicate Inv(s: System) {
    && !s.broken
    && (s.head.None? ==> s.locals == map[])
    && (s.head.Some? ==> HeadOk(s.head.value))
    && forall a {:trigger LocalOk(s.locals[a], s.head.value, a)} :: a in s.locals && s.head.Some? ==>
       LocalOk(s.locals[a], s.head.value, a)
  }

  // ------------------------------------------------------------- tables never fill

  ghost function Elems(terms: seq<int>): (r: set<int>)
    ensures |r| <= |terms| && forall x :: x in r <==> x in terms
  {
    if terms == [] then {} else Elems(terms[1..]) + {terms[0]}
  }

  lemma Smaller(keys: set<int>, all: set<int>, self: int)
    requires self in all && keys <= all - {self}
    ensures |keys| < |all|
  {
    SubsetSize(keys, all - {self});
    assert |all - {self}| == |all| - 1;
  }

  // The peers of a terminal are other terminals: there is room for one more.
  lemma Room(m: map<int, Pipe>, terms: seq<int>, self: int)
    requires |terms| <= MAX_TERMINALS && self in terms && forall k :: k in m ==> k in terms && k != self
    ensures |m| < MAX_TERMINALS
  {
    forall k | k in m.Keys
      ensures k in Elems(terms) - {self}
    {
      assert k in m;
    }
    Smaller(m.Keys, Elems(terms), self);
    assert |m| == |m.Keys|;
  }

  lemma OutsRoom(t: Terminal, pipes: seq<Pipe>, terms: seq<int>)
    requires |terms| <= MAX_TERMINALS && t.self in terms && PipesOk(pipes, terms)
    requires forall k :: k in t.outs ==> t.outs[k] in pipes && t.outs[k].src == t.self && t.outs[k].dst == k
    ensures |t.outs| < MAX_TERMINALS
  {
    forall k | k in t.outs
      ensures k in terms && k != t.self
    {
      var i :| 0 <= i < |pipes| && pipes[i] == t.outs[k];
    }
    Room(t.outs, terms, t.self);
  }

  lemma InsRoom(t: Terminal, pipes: seq<Pipe>, terms: seq<int>)
    requires |terms| <= MAX_TERMINALS && t.self in terms && PipesOk(pipes, terms)
    requires forall k :: k in t.ins ==> t.ins[k] in pipes && t.ins[k].dst == t.self && t.ins[k].src == k
    ensures |t.ins| < MAX_TERMINALS
  {
    forall k | k in t.ins
      ensures k in terms && k != t.self
    {
      var i :| 0 <= i < |pipes| && pipes[i] == t.ins[k];
    }
    Room(t.ins, terms, t.self);
  }

  function Max(a: nat, b: nat): nat { if a < b then b else a }

  // A scan of which the first i pipes are done, by a view that knew the first k
  // for its pipes out, and the first n for its pipes in.
  ghost predicate Scanned(t: Terminal, pipes: seq<Pipe>, i: nat, k: nat, n: nat) {
    && i <= |pipes| && k <= |pipes| && n <= |pipes|
    && OutsOk(t, pipes[..Max(i, k)]) && InsOk(t, pipes[..Max(i, n)])
  }

  lemma {:induction false} ScanOk(t: Terminal, pipes: seq<Pipe>, terms: seq<int>, i: nat, k: nat, n: nat)
    requires |terms| <= MAX_TERMINALS && (forall j :: 0 <= j < |terms| ==> terms[j] >= 0) && t.self in terms
             && PipesOk(pipes, terms)
    requires Scanned(t, pipes, i, k, n)
    ensures var r := Scan(t, pipes, i);
            && r.Some? && r.value == t.(outs := r.value.outs, ins := r.value.ins)
            && OutsOk(r.value, pipes) && InsOk(r.value, pipes)
    decreases |pipes| - i
  {
    if i == |pipes| {
      assert pipes[..|pipes|] == pipes;
    } else {
      var t' := ScanStep(t, pipes, terms, i, k, n);
      ScanOk(t', pipes, terms, i + 1, k, n);
    }
  }

  lemma NotAmong(pipes: seq<Pipe>, p: Pipe)
    requires forall i :: 0 <= i < |pipes| ==> pipes[i].src != p.src || pipes[i].dst != p.dst
    ensures forall q :: q in pipes ==> q.src != p.src || q.dst != p.dst
  {
  }

  // One more pipe, which the tables do not depend on unless it is theirs.
  lemma OutsGrow(t: Terminal, t': Terminal, pipes: seq<Pipe>, p: Pipe)
    requires OutsOk(t, pipes) && forall i :: 0 <= i < |pipes| ==> pipes[i].src != p.src || pipes[i].dst != p.dst
    requires t' == t.(outs := t'.outs, ins := t'.ins)
    requires t'.outs == if p.src == t.self then t.outs[p.dst := p] else t.outs
    ensures OutsOk(t', pipes + [p]) && (p.src == t.self ==> p.dst !in t.outs)
  {
    var pipes' := pipes + [p];
    NotAmong(pipes, p);
    forall i | 0 <= i < |pipes'| && pipes'[i].src == t.self
      ensures pipes'[i].dst in t'.outs && t'.outs[pipes'[i].dst] == pipes'[i]
    {
    }
    forall to | to in t'.outs
      ensures t'.outs[to] in pipes'
    {
      if to != p.dst || p.src != t.self { assert t.outs[to] in pipes; } else { assert pipes'[|pipes|] == p; }
    }
  }

  lemma InsGrow(t: Terminal, t': Terminal, pipes: seq<Pipe>, p: Pipe)
    requires InsOk(t, pipes) && forall i :: 0 <= i < |pipes| ==> pipes[i].src != p.src || pipes[i].dst != p.dst
    requires t' == t.(outs := t'.outs, ins := t'.ins)
    requires t'.ins == if p.dst == t.self then t.ins[p.src := p] else t.ins
    ensures InsOk(t', pipes + [p]) && (p.dst == t.self ==> p.src !in t.ins)
  {
    var pipes' := pipes + [p];
    NotAmong(pipes, p);
    forall i | 0 <= i < |pipes'| && pipes'[i].dst == t.self
      ensures pipes'[i].src in t'.ins && t'.ins[pipes'[i].src] == pipes'[i]
    {
    }
    forall src | src in t'.ins
      ensures t'.ins[src] in pipes'
    {
      if src != p.src || p.dst != t.self { assert t.ins[src] in pipes; } else { assert pipes'[|pipes|] == p; }
    }
  }

  // What the scan of one pipe does to a table: a pipe already known is in it.
  lemma OutsStep(t: Terminal, t': Terminal, pipes: seq<Pipe>, i: nat, k: nat)
    requires i < |pipes| && k <= |pipes| && OutsOk(t, pipes[..Max(i, k)])
    requires forall a, b :: 0 <= a < b < |pipes| ==> pipes[a].src != pipes[b].src || pipes[a].dst != pipes[b].dst
    requires t' == t.(outs := t'.outs, ins := t'.ins)
    requires t'.outs == if pipes[i].src == t.self && i >= k then t.outs[pipes[i].dst := pipes[i]] else t.outs
    ensures OutsOk(t', pipes[..Max(i + 1, k)])
    ensures pipes[i].src == t.self ==> (pipes[i].dst in t.outs <==> i < k)
  {
    if i < k {
      assert pipes[..k][i] == pipes[i];
    } else {
      OutsGrow(t, t', pipes[..i], pipes[i]);
      assert pipes[..i + 1] == pipes[..i] + [pipes[i]];
    }
  }

  lemma InsStep(t: Terminal, t': Terminal, pipes: seq<Pipe>, i: nat, n: nat)
    requires i < |pipes| && n <= |pipes| && InsOk(t, pipes[..Max(i, n)])
    requires forall a, b :: 0 <= a < b < |pipes| ==> pipes[a].src != pipes[b].src || pipes[a].dst != pipes[b].dst
    requires t' == t.(outs := t'.outs, ins := t'.ins)
    requires t'.ins == if pipes[i].dst == t.self && i >= n then t.ins[pipes[i].src := pipes[i]] else t.ins
    ensures InsOk(t', pipes[..Max(i + 1, n)])
    ensures pipes[i].dst == t.self ==> (pipes[i].src in t.ins <==> i < n)
  {
    if i < n {
      assert pipes[..n][i] == pipes[i];
    } else {
      InsGrow(t, t', pipes[..i], pipes[i]);
      assert pipes[..i + 1] == pipes[..i] + [pipes[i]];
    }
  }

  lemma ScanRoom(t: Terminal, pipes: seq<Pipe>, terms: seq<int>, m: nat, n: nat)
    requires |terms| <= MAX_TERMINALS && t.self in terms && PipesOk(pipes, terms) && m <= |pipes| && n <= |pipes|
    requires OutsOk(t, pipes[..m]) && InsOk(t, pipes[..n])
    ensures |t.outs| < MAX_TERMINALS && |t.ins| < MAX_TERMINALS
  {
    OutsRoom(t, pipes[..m], terms);
    InsRoom(t, pipes[..n], terms);
  }

  lemma ScanStep(t: Terminal, pipes: seq<Pipe>, terms: seq<int>, i: nat, k: nat, n: nat) returns (t': Terminal)
    requires |terms| <= MAX_TERMINALS && (forall j :: 0 <= j < |terms| ==> terms[j] >= 0) && t.self in terms
             && PipesOk(pipes, terms)
    requires i < |pipes| && Scanned(t, pipes, i, k, n)
    ensures Scanned(t', pipes, i + 1, k, n)
    ensures t' == t.(outs := t'.outs, ins := t'.ins) && Scan(t, pipes, i) == Scan(t', pipes, i + 1)
  {
    var p := pipes[i];
    ScanRoom(t, pipes, terms, Max(i, k), Max(i, n));
    t' := if p.src == t.self && i >= k then t.(outs := t.outs[p.dst := p])
          else if p.dst == t.self && i >= n then t.(ins := t.ins[p.src := p]) else t;
    OutsStep(t, t', pipes, i, k);
    InsStep(t, t', pipes, i, n);
  }

  lemma {:induction false} ScanSelf(t: Terminal, pipes: seq<Pipe>, i: nat)
    ensures Scan(t, pipes, i).Some? ==> Scan(t, pipes, i).value.self == t.self
    decreases |pipes| - i
  {
    if i < |pipes| {
      var p := pipes[i];
      ScanSelf(t, pipes, i + 1);
      ScanSelf(t.(outs := t.outs[p.dst := p]), pipes, i + 1);
      ScanSelf(t.(ins := t.ins[p.src := p]), pipes, i + 1);
    }
  }

  // ---------------------------------------------------------------- every action

  lemma PrefixKept<X>(s: seq<X>, x: X, n: int)
    requires 0 <= n <= |s|
    ensures (s + [x])[..n] == s[..n]
  {
  }

  // What is added to the shared table leaves all views as they are.
  lemma ViewKept(t: Terminal, h: Head, h': Head, self: int)
    requires LocalOk(t, h, self) && |h.terms| <= |h'.terms| && |h.pipes| <= |h'.pipes|
    requires h'.terms[..|h.terms|] == h.terms && h'.pipes[..|h.pipes|] == h.pipes
    requires forall i :: |h.pipes| <= i < |h'.pipes| ==> h'.pipes[i].src != self
    ensures LocalOk(t, h', self)
  {
    forall i | 0 <= i < |h'.pipes| && h'.pipes[i].src == self
      ensures h'.pipes[i].dst in t.outs && t.outs[h'.pipes[i].dst] == h'.pipes[i]
    {
      assert h'.pipes[..|h.pipes|][i] == h.pipes[i];
    }
    forall to | to in t.outs
      ensures t.outs[to] in h'.pipes
    {
      assert t.outs[to] in h'.pipes[..|h.pipes|];
    }
    assert h'.terms[..t.tver] == h.terms[..t.tver] && h'.pipes[..t.pver - 1] == h.pipes[..t.pver - 1];
    assert self in h'.terms[..|h.terms|];
  }

  lemma KeepOk(s: System, h': Head, t: Terminal)
    requires Inv(s) && HeadOk(h') && LocalOk(t, h', t.self)
    requires s.head.Some? ==> var h := s.head.value;
               && |h.terms| <= |h'.terms| && |h.pipes| <= |h'.pipes|
               && h'.terms[..|h.terms|] == h.terms && h'.pipes[..|h.pipes|] == h.pipes
               && forall i :: |h.pipes| <= i < |h'.pipes| ==> h'.pipes[i].src == t.self
    ensures Inv(Keep(s, h', Some(t)))
  {
    var s' := Keep(s, h', Some(t));
    forall a | a in s'.locals
      ensures LocalOk(s'.locals[a], h', a)
    {
      if a != t.self {
        assert LocalOk(s.locals[a], s.head.value, a);
        ViewKept(s.locals[a], s.head.value, h', a);
      }
    }
  }

  // A fresh terminal knows no pipe yet, any other all those from itself.
  lemma UpdatePipesOk(t: Terminal, h: Head)
    requires HeadOk(h) && t.self in h.terms && 0 < t.tver <= |h.terms| && t.terms == h.terms[..t.tver]
    requires if t.pver == 0 then t.outs == t.ins == map[]
             else 0 < t.pver <= |h.pipes| + 1 && OutsOk(t, h.pipes) && InsOk(t, h.pipes[..t.pver - 1])
    ensures var r := UpdatePipes(t, h);
            r.Some? && r.value.self == t.self && r.value.pver == h.pver && LocalOk(r.value, h, t.self)
    ensures t.pver > 0 ==> UpdatePipes(t, h).value.outs == t.outs
  {
    var k, n := if t.pver > 0 then |h.pipes| else 0, if t.pver > 0 then t.pver - 1 else 0;
    assert h.pipes[..|h.pipes|] == h.pipes && h.pipes[..h.pver - 1] == h.pipes;
    ScanOk(t.(pver := h.pver), h.pipes, h.terms, 0, k, n);
    if t.pver > 0 { OutsUnique(t, UpdatePipes(t, h).value, h.pipes); }
  }

  lemma OutsUnique(t: Terminal, t': Terminal, pipes: seq<Pipe>)
    requires OutsOk(t, pipes) && OutsOk(t', pipes) && t.self == t'.self
    ensures t.outs == t'.outs
  {
    forall to
      ensures to in t.outs <==> to in t'.outs
      ensures to in t.outs ==> t'.outs[to] == t.outs[to]
    {
      if to in t.outs { assert t.outs[to] in pipes; }
      if to in t'.outs { assert t'.outs[to] in pipes; }
    }
  }

  lemma AttachOk(h: Head, self: int)
    requires HeadOk(h) && self >= 0 && Attach(h, self).Some?
    ensures var h' := Attach(h, self).value;
            && HeadOk(h') && self in h'.terms && h'.pipes == h.pipes
            && |h.terms| <= |h'.terms| && h'.terms[..|h.terms|] == h.terms
  {
    var h' := Attach(h, self).value;
    if self !in h.terms {
      assert h'.terms[|h.terms|] == self && h'.terms[..|h.terms|] == h.terms;
    } else {
      assert h.terms[..|h.terms|] == h.terms;
    }
  }

  lemma JoinOk(s: System, self: int, h: Head)
    requires Inv(s) && HeadOk(h) && self in h.terms
    requires s.head.Some? ==> var h0 := s.head.value;
               h.pipes == h0.pipes && |h0.terms| <= |h.terms| && h.terms[..|h0.terms|] == h0.terms
    ensures Inv(Keep(s, h, UpdatePipes(UpdateTerminals(Terminal(self, 0, 0, [], map[], map[]), h), h)))
  {
    var t := UpdateTerminals(Terminal(self, 0, 0, [], map[], map[]), h);
    assert h.terms[..h.tver] == h.terms && h.pipes[..|h.pipes|] == h.pipes;
    UpdatePipesOk(t, h);
    KeepOk(s, h, UpdatePipes(t, h).value);
  }

  lemma CreateOk(s: System, self: int)
    requires Inv(s) && Enabled(s, Creates(self))
    ensures Inv(Create(s, self))
  {
    if s.head.None? {
      JoinOk(s, self, FirstHead(self));
    } else if Attach(s.head.value, self).Some? {
      AttachOk(s.head.value, self);
      JoinOk(s, self, Attach(s.head.value, self).value);
    }
  }

  lemma PollsTerminalsOk(s: System, self: int)
    requires Inv(s) && Enabled(s, PollsTerminals(self))
    ensures Inv(Apply(s, PollsTerminals(self)))
  {
    var h, t := s.head.value, s.locals[self];
    assert LocalOk(t, h, self) && h.terms[..h.tver] == h.terms && h.pipes[..|h.pipes|] == h.pipes;
    KeepOk(s, h, UpdateTerminals(t, h));
  }

  lemma PollsPipesOk(s: System, self: int)
    requires Inv(s) && Enabled(s, PollsPipes(self))
    ensures Inv(Apply(s, PollsPipes(self)))
  {
    var h, t := s.head.value, s.locals[self];
    assert LocalOk(t, h, self) && h.terms[..|h.terms|] == h.terms && h.pipes[..|h.pipes|] == h.pipes;
    UpdatePipesOk(t, h);
    KeepOk(s, h, UpdatePipes(t, h).value);
  }

  function Grown(h: Head, p: Pipe): Head { h.(ckey := h.ckey + 1, pipes := h.pipes + [p], pver := h.pver + 1) }

  lemma GrownOk(h: Head, p: Pipe)
    requires HeadOk(h) && |h.pipes| < MAX_PIPES && p.key == h.ckey + 1 && p.src in h.terms && p.dst in h.terms
             && p.src != p.dst
    requires forall i :: 0 <= i < |h.pipes| ==> h.pipes[i].src != p.src || h.pipes[i].dst != p.dst
    ensures HeadOk(Grown(h, p))
  {
  }

  // A view of the current version that knows of no pipe to a peer: there is none.
  lemma NoPipe(t: Terminal, h: Head, to: int)
    requires OutsOk(t, h.pipes) && to !in t.outs
    ensures forall i :: 0 <= i < |h.pipes| ==> h.pipes[i].src != t.self || h.pipes[i].dst != to
  {
  }

  lemma RegisteredView(t: Terminal, h: Head, p: Pipe)
    requires HeadOk(h) && LocalOk(t, h, t.self) && t.pver == h.pver && p.src == t.self && p.dst != t.self
    requires forall i :: 0 <= i < |h.pipes| ==> h.pipes[i].src != p.src || h.pipes[i].dst != p.dst
    ensures LocalOk(t.(outs := t.outs[p.dst := p], pver := h.pver + 1), Grown(h, p), t.self)
  {
    var h', t' := Grown(h, p), t.(outs := t.outs[p.dst := p], pver := h.pver + 1);
    assert h.pipes[..t.pver - 1] == h.pipes && h'.pipes[..t'.pver - 1] == h'.pipes == h.pipes + [p];
    OutsGrow(t, t'.(pver := t.pver), h.pipes, p);
    InsGrow(t, t'.(pver := t.pver), h.pipes, p);
  }

  function Linked(h: Head, t: Terminal, to: int): Terminal {
    t.(outs := t.outs[to := Pipe(h.ckey + 1, t.self, to)], pver := h.pver + 1)
  }

  lemma MayRegisterOk(h: Head, t: Terminal, to: int)
    requires HeadOk(h) && LocalOk(t, h, t.self) && MayRegister(h, t, to) && to !in t.outs
    ensures var h' := Grown(h, Pipe(h.ckey + 1, t.self, to)); HeadOk(h') && LocalOk(Linked(h, t, to), h', t.self)
  {
    var p := Pipe(h.ckey + 1, t.self, to);
    NoPipe(t, h, to);
    assert HeadOk(Grown(h, p)) by { GrownOk(h, p); }
    RegisteredView(t, h, p);
  }

  lemma RegisterRoom(h: Head, t: Terminal, to: int)
    requires HeadOk(h) && LocalOk(t, h, t.self) && to in h.terms
    ensures |t.outs| < MAX_TERMINALS && to >= 0
  {
    OutsRoom(t, h.pipes, h.terms);
    var i :| 0 <= i < |h.terms| && h.terms[i] == to;
  }

  // The table has room for the pipe, so the view is changed along with the
  // shared table.
  lemma RegisterLinks(s: System, h: Head, t: Terminal, to: int)
    requires MayRegister(h, t, to) && to !in t.outs && |t.outs| < MAX_TERMINALS && to >= 0
    ensures Register(s, h, t, to) == Keep(s, Grown(h, Pipe(h.ckey + 1, t.self, to)), Some(Linked(h, t, to)))
  {
  }

  lemma RegistersOk(s: System, self: int, to: int)
    requires Inv(s) && Enabled(s, Registers(self, to))
    ensures Inv(Apply(s, Registers(self, to)))
    ensures var h, t := s.head.value, s.locals[self];
            MayRegister(h, t, to) ==> to in Apply(s, Registers(self, to)).locals[self].outs
  {
    var h, t := s.head.value, s.locals[self];
    assert LocalOk(t, h, self);
    if MayRegister(h, t, to) {
      var h' := Grown(h, Pipe(h.ckey + 1, t.self, to));
      MayRegisterOk(h, t, to);
      RegisterRoom(h, t, to);
      RegisterLinks(s, h, t, to);
      PrefixKept(h.pipes, Pipe(h.ckey + 1, t.self, to), |h.pipes|);
      assert h'.pipes[..|h.pipes|] == h.pipes[..|h.pipes|] == h.pipes && h.terms[..|h.terms|] == h.terms;
      KeepOk(s, h', Linked(h, t, to));
    }
  }

  lemma ReleasesOk(s: System, self: int)
    requires Inv(s) && Enabled(s, Releases(self))
    ensures Inv(Apply(s, Releases(self)))
  {
    var s' := Apply(s, Releases(self));
    forall a | a in s'.locals
      ensures LocalOk(s'.locals[a], s'.head.value, a)
    {
      assert LocalOk(s.locals[a], s.head.value, a);
    }
  }

  // --------------------------------------------------------- what the actions do

  // Nobody but this terminal sees a change of its own view.
  ghost predicate OthersKept(s: System, s': System, self: int) {
    && s'.broken == s.broken && s'.locals.Keys == s.locals.Keys + {self}
    && forall a :: a in s.locals && a != self ==> s'.locals[a] == s.locals[a]
  }

  // The view has all pipes from and to this terminal, and knows that it has.
  ghost predicate PipesCurrent(t: Terminal, h: Head) { t.pver == h.pver && OutsOk(t, h.pipes) && InsOk(t, h.pipes) }

  ghost predicate TermsCurrent(t: Terminal, h: Head) { t.tver == h.tver && t.terms == h.terms }

  // A poll for pipes leaves a current view of them, and nothing else changes.
  lemma PollsPipesDone(s: System, self: int)
    requires Inv(s) && Enabled(s, PollsPipes(self))
    ensures var s' := Apply(s, PollsPipes(self)); var t, t' := s.locals[self], s'.locals[self];
            && s'.head == s.head && OthersKept(s, s', self) && PipesCurrent(t', s.head.value)
            && t' == t.(pver := t'.pver, outs := t'.outs, ins := t'.ins)
  {
    var h, t := s.head.value, s.locals[self];
    assert LocalOk(t, h, self) && h.pipes[..|h.pipes|] == h.pipes;
    UpdatePipesOk(t, h);
    var r := UpdatePipes(t, h).value;
    assert LocalOk(r, h, self);
    ScanFields(t.(pver := h.pver), h.pipes, 0);
  }

  lemma {:induction false} ScanFields(t: Terminal, pipes: seq<Pipe>, i: nat)
    ensures var r := Scan(t, pipes, i); r.Some? ==> r.value == t.(outs := r.value.outs, ins := r.value.ins)
    decreases |pipes| - i
  {
    if i < |pipes| {
      var p := pipes[i];
      ScanFields(t, pipes, i + 1);
      ScanFields(t.(outs := t.outs[p.dst := p]), pipes, i + 1);
      ScanFields(t.(ins := t.ins[p.src := p]), pipes, i + 1);
    }
  }

  // The same for terminals.
  lemma PollsTerminalsDone(s: System, self: int)
    requires Inv(s) && Enabled(s, PollsTerminals(self))
    ensures var s' := Apply(s, PollsTerminals(self)); var t, t' := s.locals[self], s'.locals[self];
            && s'.head == s.head && OthersKept(s, s', self) && TermsCurrent(t', s.head.value)
            && t' == t.(tver := t'.tver, terms := t'.terms)
  {
    var h, t := s.head.value, s.locals[self];
    assert LocalOk(t, h, self) && h.terms[..|h.terms|] == h.terms;
  }

  // The view with which a terminal joins.
  lemma FirstView(self: int, h: Head)
    requires HeadOk(h) && self in h.terms
    ensures var r := UpdatePipes(UpdateTerminals(Terminal(self, 0, 0, [], map[], map[]), h), h);
            r.Some? && r.value.self == self && PipesCurrent(r.value, h) && TermsCurrent(r.value, h)
  {
    var t := UpdateTerminals(Terminal(self, 0, 0, [], map[], map[]), h);
    assert h.terms[..h.tver] == h.terms && h.pipes[..|h.pipes|] == h.pipes;
    UpdatePipesOk(t, h);
    ScanFields(t.(pver := h.pver), h.pipes, 0);
  }

  lemma JoinDone(s: System, self: int, h: Head)
    requires HeadOk(h) && self in h.terms && self !in s.locals
    ensures var s' := Keep(s, h, UpdatePipes(UpdateTerminals(Terminal(self, 0, 0, [], map[], map[]), h), h));
            && s'.head == Some(h) && OthersKept(s, s', self) && self in s'.locals
            && PipesCurrent(s'.locals[self], h) && TermsCurrent(s'.locals[self], h)
  {
    FirstView(self, h);
  }

  // A terminal that is created is registered, once, and starts with a current view;
  // unless 64 others are registered, when nothing changes.
  lemma CreatesDone(s: System, self: int)
    requires Inv(s) && Enabled(s, Creates(self))
    ensures var s' := Apply(s, Creates(self)); var was := if s.head.Some? then s.head.value.terms else [];
            if self !in was && |was| >= 64 then s' == s
            else
              && s'.head.Some? && OthersKept(s, s', self) && self in s'.locals
              && s'.head.value.terms == (if self in was then was else was + [self])
              && s'.head.value.pipes == (if s.head.Some? then s.head.value.pipes else [])
              && PipesCurrent(s'.locals[self], s'.head.value) && TermsCurrent(s'.locals[self], s'.head.value)
  {
    if s.head.None? {
      JoinDone(s, self, FirstHead(self));
    } else if Attach(s.head.value, self).Some? {
      AttachOk(s.head.value, self);
      JoinDone(s, self, Attach(s.head.value, self).value);
    }
  }

  // A pipe is made just if the view of the terminal is current, there are fewer than
  // 1024 pipes, and the peer is another registered terminal. It is the last, with a
  // key of its own, and the terminal knows it; else nothing changes.
  lemma RegistersDone(s: System, self: int, to: int)
    requires Inv(s) && Enabled(s, Registers(self, to))
    ensures var s' := Apply(s, Registers(self, to)); var h, t := s.head.value, s.locals[self];
            if t.pver == h.pver && |h.pipes| < 1024 && to in h.terms && to != self
            then && s'.head.Some? && s'.head.value.pipes == h.pipes + [Pipe(|h.pipes| + 1, self, to)]
                 && s'.head.value.terms == h.terms && s'.head.value.tver == h.tver && OthersKept(s, s', self)
                 && PipesCurrent(s'.locals[self], s'.head.value)
                 && s'.locals[self].terms == t.terms && s'.locals[self].tver == t.tver
            else s' == s
  {
    var h, t := s.head.value, s.locals[self];
    assert LocalOk(t, h, self);
    if MayRegister(h, t, to) {
      var h' := Grown(h, Pipe(h.ckey + 1, t.self, to));
      MayRegisterOk(h, t, to);
      RegisterRoom(h, t, to);
      RegisterLinks(s, h, t, to);
      assert h'.pipes[..|h'.pipes|] == h'.pipes && LocalOk(Linked(h, t, to), h', t.self);
    }
  }

  // ------------------------------------------------------------ all executions

  function Start(): System { System(None, map[], false) }

  ghost predicate Runs(s: System, acts: seq<Action>, s': System)
    decreases |acts|
  {
    if acts == [] then s' == s else Enabled(s, acts[0]) && Runs(Apply(s, acts[0]), acts[1..], s')
  }

  lemma ApplyOk(s: System, a: Action)
    requires Inv(s) && Enabled(s, a)
    ensures Inv(Apply(s, a))
  {
    match a
    case Creates(self) => CreateOk(s, self);
    case PollsTerminals(self) => PollsTerminalsOk(s, self);
    case PollsPipes(self) => PollsPipesOk(s, self);
    case Registers(self, to) => RegistersOk(s, self, to);
    case Releases(self) => ReleasesOk(s, self);
  }

  lemma {:induction false} RunsOk(s: System, acts: seq<Action>, s': System)
    requires Inv(s) && Runs(s, acts, s')
    ensures Inv(s')
    decreases |acts|
  {
    if acts != [] {
      ApplyOk(s, acts[0]);
      RunsOk(Apply(s, acts[0]), acts[1..], s');
    }
  }

  // A terminal that knew of no pipe to a peer before it polled, and before others
  // took their turns, knows of none when it comes to make one.
  lemma OutsSteady(s: System, a: Action, self: int, to: int)
    requires Inv(s) && Enabled(s, a) && self in s.locals && to !in s.locals[self].outs
    requires a != Registers(self, to) && a != Releases(self)
    ensures self in Apply(s, a).locals && to !in Apply(s, a).locals[self].outs
  {
    var t := s.locals[self];
    assert LocalOk(t, s.head.value, self);
    if a.PollsPipes? && a.self == self {
      UpdatePipesOk(t, s.head.value);
    } else if a.self != self && a.self in s.locals {
      assert LocalOk(s.locals[a.self], s.head.value, a.self);
      if a.PollsPipes? { UpdatePipesOk(s.locals[a.self], s.head.value); }
    } else if a.Creates? {
      var h := Attach(s.head.value, a.self);
      if h.Some? {
        var t' := UpdateTerminals(Terminal(a.self, 0, 0, [], map[], map[]), h.value);
        ScanSelf(t'.(pver := h.value.pver), h.value.pipes, 0);
      }
    }
  }

  // In every interleaving: no assertion fails, no two pipes join the same
  // terminals in the same direction, pipes join different registered terminals,
  // a view of the current version is exact, and even an older one knows exactly
  // the pipes from its terminal.
  lemma Registry(acts: seq<Action>, s: System, a: int)
    requires Runs(Start(), acts, s) && a in s.locals
    ensures !s.broken && s.head.Some?
    ensures var h, t := s.head.value, s.locals[a];
            && PipesOk(h.pipes, h.terms) && a in h.terms
            && (t.tver == h.tver ==> t.terms == h.terms)
            && OutsOk(t, h.pipes) && (t.pver == h.pver ==> InsOk(t, h.pipes))
  {
    RunsOk(Start(), acts, s);
    var h, t := s.head.value, s.locals[a];
    assert LocalOk(t, h, a);
    assert h.terms[..|h.terms|] == h.terms && h.pipes[..|h.pipes|] == h.pipes;
  }
}
