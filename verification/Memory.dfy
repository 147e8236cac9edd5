/**
 Process memory as an invocation sees it: objects with stable identities whose storage may move.
 A pointer names an object and the generation of its storage, so a pointer taken before a growing
 reserve no longer designates anything.
 */
module Memory {
  import opened Wrappers
  import opened Numbers

  datatype Ptr = Raw(bits: u64) | At(obj: nat, gen: nat)

  /** A buffer: its storage (the whole capacity) and how much of it is in use. */
  datatype Obj = Obj(gen: nat, data: seq<byte>, used: nat)

  datatype Mem = Mem(objs: map<nat, Obj>, next: nat)

  ghost predicate MemOk(m: Mem) {
    forall o :: o in m.objs ==> o < m.next && m.objs[o].used <= |m.objs[o].data|
  }

  /** What the language runtime decides: how much a reserve over-allocates and what the new bytes
      hold, and how text is decoded. */
  datatype Env = Env(
    fl: FloatOps,
    spare: nat -> seq<byte>,
    lossy: seq<byte> -> seq<byte>,
    decode: seq<byte> -> Option<string>,
    parseFloat: string -> Option<u64>,
    follow: u64 -> seq<byte>,
    peek: (u64, nat) -> seq<byte>)

  /** A reserve gives at least what was asked for, a read exactly that. */
  ghost predicate EnvOk(env: Env) {
    && (forall n: nat :: |env.spare(n)| >= n)
    && (forall a: u64, n: nat :: |env.peek(a, n)| == n)
  }

  function Allocate(m: Mem, bytes: seq<byte>): (r: Mem)
    requires MemOk(m)
    ensures MemOk(r) && m.next !in m.objs && m.next in r.objs && r.objs[m.next] == Obj(0, bytes, |bytes|)
    ensures r.next == m.next + 1 && r.objs.Keys == m.objs.Keys + {m.next}
    ensures forall o :: o in m.objs ==> r.objs[o] == m.objs[o]
  {
    Mem(m.objs[m.next := Obj(0, bytes, |bytes|)], m.next + 1)
  }

  function AddressOf(m: Mem, o: nat): Ptr
    requires o in m.objs
  {
    At(o, m.objs[o].gen)
  }

  /** The pointer designates the current storage of a live object. */
  predicate Live(m: Mem, p: Ptr) {
    p.At? && p.obj in m.objs && m.objs[p.obj].gen == p.gen
  }

  // -- growing buffers --------------------------------------------------------------------------------------------

  /** `reserve`: keep the storage if it has room, otherwise move the used bytes to a larger one. */
  function Reserve(env: Env, o: Obj, additional: nat): (r: Obj)
    requires EnvOk(env) && o.used <= |o.data|
    ensures r.used == o.used && |r.data| >= r.used + additional
    ensures r.data[..r.used] == o.data[..o.used]
    ensures r != o ==> r.gen != o.gen
  {
    if |o.data| - o.used >= additional then o
    else Obj(o.gen + 1, o.data[..o.used] + env.spare(additional), o.used)
  }

  /** Zero everything past the used bytes. */
  function ZeroSpare(o: Obj): (r: Obj)
    requires o.used <= |o.data|
    ensures r.gen == o.gen && r.used == o.used && |r.data| == |o.data|
    ensures r.data[..r.used] == o.data[..o.used]
    ensures forall b :: r.used <= b < |r.data| ==> r.data[b] == 0
  {
    Obj(o.gen, o.data[..o.used] + seq(|o.data| - o.used, _ => 0), o.used)
  }

  /** `resize(len, 0)`. */
  function Resize(env: Env, o: Obj, len: nat): (r: Obj)
    requires EnvOk(env) && o.used <= |o.data|
    ensures r.used == len <= |r.data|
    ensures forall b :: 0 <= b < len ==> r.data[b] == if b < o.used then o.data[b] else 0
  {
    if len <= o.used then o.(used := len)
    else
      var grown := Reserve(env, o, len - o.used);
      assert forall b :: 0 <= b < o.used ==> grown.data[..grown.used][b] == o.data[..o.used][b];
      Obj(grown.gen, grown.data[..o.used] + seq(len - o.used, _ => 0) + grown.data[len..], len)
  }

  /** Bytes before the first NUL, or all of them. */
  function UntilNul(bs: seq<byte>): (r: seq<byte>)
    ensures |r| <= |bs| && r == bs[..|r|]
    ensures 0 !in r
    ensures |r| < |bs| ==> bs[|r|] == 0
  {
    if bs == [] || bs[0] == 0 then [] else [bs[0]] + UntilNul(bs[1..])
  }

  lemma {:induction false} UntilNulIsFirst(bs: seq<byte>, n: nat)
    requires n <= |bs| && 0 !in bs[..n] && (n < |bs| ==> bs[n] == 0)
    ensures UntilNul(bs) == bs[..n]
  {
    if n > 0 {
      assert bs[..n][0] == bs[0];
      assert bs[1..][..n - 1] == bs[..n][1..];
      UntilNulIsFirst(bs[1..], n - 1);
    }
  }

  /** `position` of the first NUL, or the length. */
  method FirstNul(bs: seq<byte>) returns (n: nat)
    ensures n <= |bs| && bs[..n] == UntilNul(bs)
    ensures n == |bs| <==> 0 !in bs
  {
    n := 0;
    while n < |bs| && bs[n] != 0
      invariant n <= |bs| && 0 !in bs[..n]
    {
      n := n + 1;
    }
    UntilNulIsFirst(bs, n);
  }
}
