// The rounds of SHA-1 over any kind of word: a schedule of sixteen words that is
// filled as it is used, against the eighty words of FIPS 180-4.
module Sha1Core {
  // The operations on words: rotation, sum, exclusive or, the functions and the
  // constants of the four stages.
  datatype Ops<!X> = Ops(rotl: (X, int) -> X, add: (X, X) -> X, xor: (X, X) -> X,
                         ch: (X, X, X) -> X, parity: (X, X, X) -> X, maj: (X, X, X) -> X, k: int -> X)

  // -------------------------------------------------- sections 4.1.1 and 6.1.2

  function F<X>(m: Ops<X>, t: nat, x: X, y: X, z: X): X {
    if t < 20 then m.ch(x, y, z) else if t < 40 then m.parity(x, y, z)
    else if t < 60 then m.maj(x, y, z) else m.parity(x, y, z)
  }

  // The message schedule.
  ghost function W<X>(m: Ops<X>, block: seq<X>, t: nat): X
    requires |block| == 16
  {
    if t < 16 then block[t]
    else
      var w := m.xor(m.xor(W(m, block, t - 3), W(m, block, t - 8)), W(m, block, t - 14));
      m.rotl(m.xor(w, W(m, block, t - 16)), 1)
  }

  datatype Vars<X> = Vars(a: X, b: X, c: X, d: X, e: X)

  function Round<X>(m: Ops<X>, v: Vars<X>, t: nat, w: X): Vars<X> {
    var temp := m.add(m.add(m.add(m.add(m.rotl(v.a, 5), F(m, t, v.b, v.c, v.d)), v.e), m.k(t / 20)), w);
    Vars(temp, v.a, m.rotl(v.b, 30), v.c, v.d)
  }

  ghost function Rounds<X>(m: Ops<X>, v: Vars<X>, block: seq<X>, t: nat): Vars<X>
    requires |block| == 16
  {
    if t == 0 then v else Round(m, Rounds(m, v, block, t - 1), t - 1, W(m, block, t - 1))
  }

  function Sum<X>(m: Ops<X>, v: Vars<X>, w: Vars<X>): Vars<X> {
    Vars(m.add(v.a, w.a), m.add(v.b, w.b), m.add(v.c, w.c), m.add(v.d, w.d), m.add(v.e, w.e))
  }

  // Eighty rounds, five for each word of the block.
  ghost function Compress<X>(m: Ops<X>, h: Vars<X>, block: seq<X>): Vars<X>
    requires |block| == 16
  {
    Sum(m, h, Rounds(m, h, block, 5 * |block|))
  }

  // ---------------------------------------------------------- the ring of words

  function VarsOf<X>(a: seq<X>): Vars<X>
    requires |a| == 5
  {
    Vars(a[0], a[1], a[2], a[3], a[4])
  }

  // The functions that the rounds go through, twenty each.
  function FTable<X>(m: Ops<X>, fi: nat, x: X, y: X, z: X): X
    requires fi < 4
  {
    if fi == 0 then m.ch(x, y, z) else if fi == 1 then m.parity(x, y, z)
    else if fi == 2 then m.maj(x, y, z) else m.parity(x, y, z)
  }

  // The number of the word in slot i of the ring when s slots of turn q are filled.
  function Latest(q: nat, s: nat, i: nat): nat
    requires s <= 16 && i < 16
  {
    if i < s || q == 0 then 16 * q + i else 16 * (q - 1) + i
  }

  ghost predicate RingOk<X>(w: seq<X>, words: seq<X>, q: nat, s: nat)
    requires |w| == 16 && |words| == 80 && s <= 16 && 16 * q + s <= 80
  {
    forall i: nat :: i < 16 ==> w[i] == words[Latest(q, s, i)]
  }

  // All words of the schedule, and the states between the rounds.
  ghost predicate WordAt<X>(m: Ops<X>, words: seq<X>, t: int)
    requires 16 <= t < |words|
  {
    words[t] == m.rotl(m.xor(m.xor(m.xor(words[t - 3], words[t - 8]), words[t - 14]), words[t - 16]), 1)
  }

  ghost predicate IsSchedule<X>(m: Ops<X>, words: seq<X>) {
    |words| == 80 && forall t {:trigger WordAt(m, words, t)} :: 16 <= t < 80 ==> WordAt(m, words, t)
  }

  ghost predicate StateAt<X>(m: Ops<X>, words: seq<X>, states: seq<Vars<X>>, t: int)
    requires 0 <= t < |words| && t + 1 < |states|
  {
    states[t + 1] == Round(m, states[t], t, words[t])
  }

  ghost predicate IsRun<X>(m: Ops<X>, words: seq<X>, states: seq<Vars<X>>) {
    && |words| == 80 && |states| == 81
    && forall t {:trigger StateAt(m, words, states, t)} :: 0 <= t < 80 ==> StateAt(m, words, states, t)
  }

  ghost function Words<X>(m: Ops<X>, block: seq<X>): (words: seq<X>)
    requires |block| == 16
    ensures IsSchedule(m, words) && words[..16] == block
  {
    seq(80, t requires 0 <= t => W(m, block, t))
  }

  ghost function States<X>(m: Ops<X>, v: Vars<X>, block: seq<X>): (states: seq<Vars<X>>)
    requires |block| == 16
    ensures IsRun(m, Words(m, block), states) && states[0] == v && states[80] == Rounds(m, v, block, 5 * |block|)
  {
    seq(81, t requires 0 <= t => Rounds(m, v, block, t))
  }

  // Word t replaces word t - 16.
  method Schedule<X>(m: Ops<X>, w: array<X>, ghost words: seq<X>, t: nat)
    requires IsSchedule(m, words) && w.Length == 16 && t < 80 && RingOk(w[..], words, t / 16, t % 16)
    modifies w
    ensures RingOk(w[..], words, t / 16, t % 16 + 1) && w[t % 16] == words[t]
  {
    var s := t % 16;
    ghost var q, u := t / 16, w[..];
    if t >= 16 {
      assert u[(s + 13) % 16] == words[t - 3] && u[(s + 8) % 16] == words[t - 8];
      assert u[(s + 2) % 16] == words[t - 14] && u[s] == words[t - 16];
      w[s] := m.rotl(m.xor(m.xor(m.xor(w[(s + 13) % 16], w[(s + 8) % 16]), w[(s + 2) % 16]), w[s]), 1);
      assert WordAt(m, words, t);
    }
    forall i: nat | i < 16
      ensures w[..][i] == words[Latest(q, s + 1, i)]
    {
      assert u[i] == words[Latest(q, s, i)];
    }
  }

  // A full turn of the ring starts the next.
  lemma NextTurn<X>(w: seq<X>, words: seq<X>, t: nat)
    requires |w| == 16 && |words| == 80 && t < 80 && RingOk(w, words, t / 16, t % 16 + 1)
    ensures RingOk(w, words, (t + 1) / 16, (t + 1) % 16)
  {
  }

  // One round on the five working words.
  method RoundStep<X>(m: Ops<X>, a: array<X>, fi: nat, w: X, ghost t: nat)
    requires a.Length == 5 && fi < 4 && 20 * fi <= t < 20 * fi + 20
    modifies a
    ensures VarsOf(a[..]) == Round(m, old(VarsOf(a[..])), t, w)
  {
    var temp := m.add(m.add(m.add(m.add(m.rotl(a[0], 5), FTable(m, fi, a[1], a[2], a[3])), a[4]), m.k(fi)), w);
    forall i | 1 <= i < 5 {
      a[i] := a[i - 1];
    }
    a[0] := temp;
    a[2] := m.rotl(a[2], 30);
  }

  method OneRound<X>(m: Ops<X>, a: array<X>, w: array<X>, ghost words: seq<X>, fi: nat, t: nat)
    requires a.Length == 5 && w.Length == 16 && a != w && fi < 4 && t < 80 && 20 * fi <= t < 20 * fi + 20
    requires IsSchedule(m, words) && RingOk(w[..], words, t / 16, t % 16)
    modifies a, w
    ensures RingOk(w[..], words, (t + 1) / 16, (t + 1) % 16)
    ensures VarsOf(a[..]) == Round(m, old(VarsOf(a[..])), t, words[t])
  {
    Schedule(m, w, words, t);
    NextTurn(w[..], words, t);
    RoundStep(m, a, fi, w[t % 16], t);
  }

  method RunRounds<X>(m: Ops<X>, a: array<X>, w: array<X>, ghost words: seq<X>, ghost states: seq<Vars<X>>)
    requires a.Length == 5 && w.Length == 16 && a != w
    requires IsSchedule(m, words) && w[..] == words[..16] && IsRun(m, words, states) && VarsOf(a[..]) == states[0]
    modifies a, w
    ensures VarsOf(a[..]) == states[80]
  {
    var t, fi, fib := 0, 0, 0;
    assert RingOk(w[..], words, 0, 0);
    while t < 80
      invariant 0 <= t <= 80 && VarsOf(a[..]) == states[t] && RingOk(w[..], words, t / 16, t % 16)
      invariant 0 <= fib < 20 && 0 <= fi < 4 && (t == 20 * fi + fib || t == 80)
    {
      assert StateAt(m, words, states, t);
      OneRound(m, a, w, words, fi, t);
      t := t + 1;
      fib := fib + 1;
      if fib == 20 {
        fib := 0;
        fi := (fi + 1) % 4;
      }
    }
  }

  // The state of the hash takes in the block in w, which is used up.
  method TakeBlock<X(0)>(m: Ops<X>, h: array<X>, w: array<X>)
    requires h.Length == 5 && w.Length == 16 && h != w
    modifies h, w
    ensures VarsOf(h[..]) == Compress(m, old(VarsOf(h[..])), old(w[..]))
  {
    ghost var v, block := VarsOf(h[..]), w[..];
    var a := new X[5];
    a[0], a[1], a[2], a[3], a[4] := h[0], h[1], h[2], h[3], h[4];
    RunRounds(m, a, w, Words(m, block), States(m, v, block));
    for t := 0 to 5
      invariant forall i :: 0 <= i < 5 ==> h[i] == if i < t then m.add(old(h[i]), a[i]) else old(h[i])
      invariant VarsOf(a[..]) == Rounds(m, v, block, 5 * w.Length)
      modifies h
    {
      h[t] := m.add(h[t], a[t]);
    }
  }
}
