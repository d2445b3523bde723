/** Requests between the cores (include/ipc_handler.h, and how source/arm9/ipc_handler.c
    reads them): a command word that announces how many buffers and parameters follow,
    then the two words of every buffer and the parameters. */
module Ipc {
  import opened Pxi
  import opened PxiRun

  datatype Buffer = Buffer(ptr: nat, size: nat)

  // ins: what the server reads, outs: what it writes.
  datatype Request = Request(id: nat, ins: seq<Buffer>, outs: seq<Buffer>, params: seq<nat>) {
    predicate Fits() {
      id < 128 && |ins| < 4 && |outs| < 4 && 2 * |ins| + 2 * |outs| + |params| <= MAX_PARAMS
    }
  }

  // MAKE_CMD
  function CommandWord(id: nat, ins: nat, outs: nat, params: nat): nat {
    id * 0x100 + ins * 0x40 + outs * 0x10 + params
  }

  // The words of n buffers.
  function BufferWords(bs: seq<Buffer>): (ws: seq<nat>)
    ensures |ws| == 2 * |bs|
  {
    if bs == [] then [] else [bs[0].ptr, bs[0].size] + BufferWords(bs[1..])
  }

  function Pack(r: Request): Call {
    Call(CommandWord(r.id, |r.ins|, |r.outs|, |r.params|), BufferWords(r.ins) + BufferWords(r.outs) + r.params)
  }

  // The n buffers whose words start at the i-th.
  function BuffersAt(ws: seq<nat>, i: nat, n: nat): (bs: seq<Buffer>)
    requires i + 2 * n <= |ws|
    ensures |bs| == n && forall k :: 0 <= k < n ==> bs[k] == Buffer(ws[i + 2 * k], ws[i + 2 * k + 1])
  {
    seq(n, k requires 0 <= k < n => Buffer(ws[i + 2 * k], ws[i + 2 * k + 1]))
  }

  // What the server makes of a command and its words.
  function Unpack(c: Call): Request {
    var ins, outs, params := c.cmd / 0x40 % 4, c.cmd / 0x10 % 4, c.cmd % 0x10;
    if 2 * ins + 2 * outs + params != |c.args| then Request(c.cmd / 0x100, [], [], c.args)
    else Request(c.cmd / 0x100, BuffersAt(c.args, 0, ins), BuffersAt(c.args, 2 * ins, outs), c.args[2 * ins + 2 * outs..])
  }

  // The command word announces two words for every buffer and one for every parameter.
  lemma AnnouncedWords(id: nat, ins: nat, outs: nat, params: nat)
    requires ins < 4 && outs < 4 && params < 16
    ensures var w := CommandWord(id, ins, outs, params);
            && w / 0x100 == id && w / 0x40 % 4 == ins && w / 0x10 % 4 == outs && w % 0x10 == params
            && Words(w) == 2 * ins + 2 * outs + params
  {
    ShiftRight(id * 0x10 + ins * 4 + outs, params);
    TwoBits(id * 4 + ins, outs);
    TwoBits(id, ins);
    assert CommandWord(id, ins, outs, params) / 0x40 == id * 4 + ins;
    assert CommandWord(id, ins, outs, params) / 0x100 == id;
  }

  lemma ShiftRight(q: nat, r: nat)
    requires r < 0x10
    ensures (q * 0x10 + r) / 0x10 == q && (q * 0x10 + r) % 0x10 == r
  {
  }

  lemma TwoBits(q: nat, r: nat)
    requires r < 4
    ensures (q * 4 + r) / 4 == q && (q * 4 + r) % 4 == r
  {
  }

  // Identifiers below 128 leave the response flag clear; the response to one reads as the
  // command with 128 added to it.
  lemma FlagIsId(id: nat, ins: nat, outs: nat, params: nat)
    requires id < 0x100 && ins < 4 && outs < 4 && params < 16
    ensures var w := CommandWord(id, ins, outs, params);
            && (HasFlag(w) <==> id >= 128)
            && (id < 128 ==> Flagged(w) == CommandWord(id + 128, ins, outs, params))
  {
    assert CommandWord(id, ins, outs, params) / 0x8000 == id / 128 by { AnnouncedWords(id, ins, outs, params); }
  }

  lemma {:induction false} BufferWordsAt(bs: seq<Buffer>, k: nat)
    requires k < |bs|
    ensures BufferWords(bs)[2 * k] == bs[k].ptr && BufferWords(bs)[2 * k + 1] == bs[k].size
  {
    if k > 0 { BufferWordsAt(bs[1..], k - 1); }
  }

  lemma Inside(before: seq<nat>, mid: seq<nat>, behind: seq<nat>, i: nat)
    requires i < |mid|
    ensures (before + mid + behind)[|before| + i] == mid[i]
  {
  }

  lemma BuffersReadBack(before: seq<nat>, bs: seq<Buffer>, behind: seq<nat>)
    ensures |before| + 2 * |bs| <= |before + BufferWords(bs) + behind|
    ensures BuffersAt(before + BufferWords(bs) + behind, |before|, |bs|) == bs
  {
    hide BufferWords, BuffersAt;
    var ws := before + BufferWords(bs) + behind;
    forall k | 0 <= k < |bs| ensures BuffersAt(ws, |before|, |bs|)[k] == bs[k] {
      BufferWordsAt(bs, k);
      Inside(before, BufferWords(bs), behind, 2 * k);
      Inside(before, BufferWords(bs), behind, 2 * k + 1);
    }
  }

  // A request that fits is a good call, and the server reads back its identifier, both
  // words of every buffer and every parameter.
  lemma PackedIsGood(r: Request)
    requires r.Fits()
    ensures GoodCall(Pack(r)) && Unpack(Pack(r)) == r
  {
    AnnouncedWords(r.id, |r.ins|, |r.outs|, |r.params|);
    FlagIsId(r.id, |r.ins|, |r.outs|, |r.params|);
    var i, o := BufferWords(r.ins), BufferWords(r.outs);
    assert [] + i + (o + r.params) == Pack(r).args && i + o + r.params == Pack(r).args;
    BuffersReadBack([], r.ins, o + r.params);
    BuffersReadBack(i, r.outs, r.params);
  }

  // -- Whole runs --

  function Packed(rs: seq<Request>): (cs: seq<Call>)
    ensures |cs| == |rs| && forall i :: 0 <= i < |rs| ==> cs[i] == Pack(rs[i])
  {
    seq(|rs|, i requires 0 <= i < |rs| => Pack(rs[i]))
  }

  function Unpacked(cs: seq<Call>): (rs: seq<Request>)
    ensures |rs| == |cs| && forall i :: 0 <= i < |cs| ==> rs[i] == Unpack(cs[i])
  {
    seq(|cs|, i requires 0 <= i < |cs| => Unpack(cs[i]))
  }

  // The protocol carrying these requests to a server that answers requests.
  function Serving(rs: seq<Request>, cap: nat, handle: seq<Request> -> nat): Config {
    Config(Packed(rs), cap, (seen: seq<Call>) => handle(Unpacked(seen)))
  }

  lemma PackedReadBack(rs: seq<Request>)
    requires forall r :: r in rs ==> r.Fits()
    ensures forall i :: 0 <= i < |rs| ==> GoodCall(Packed(rs)[i])
    ensures forall j :: 0 <= j <= |rs| ==> Unpacked(Packed(rs)[..j]) == rs[..j]
  {
    forall i | 0 <= i < |rs| ensures GoodCall(Packed(rs)[i]) && Unpack(Packed(rs)[i]) == rs[i] { PackedIsGood(rs[i]); }
  }

  // In every interleaving the server has been asked exactly the requests made so far, word
  // for word, and every finished request got the server's answer to that very request.
  lemma RequestsAreServed(rs: seq<Request>, cap: nat, handle: seq<Request> -> nat, turns: seq<Actor>)
    requires forall r :: r in rs ==> r.Fits()
    ensures var s := Execute(Serving(rs, cap, handle), Init(), turns);
            && s.k <= |rs| && |s.results| == s.k
            && (forall j :: 0 <= j < s.k ==> s.results[j] == handle(rs[..j + 1]))
            && (Unpacked(s.seen) == rs[..s.k] || (s.k < |rs| && Unpacked(s.seen) == rs[..s.k + 1]))
            && !s.server.Panic? && !s.handler.Stray?
  {
    hide Pack, Unpack;
    var c := Serving(rs, cap, handle);
    PackedReadBack(rs);
    CallsAreCorrect(c, turns);
    var s := Execute(c, Init(), turns);
    forall j | 0 <= j < s.k ensures s.results[j] == handle(rs[..j + 1]) {
      assert s.results[j] == c.handle(c.calls[..j + 1]);
    }
  }

  // With room for two words a run that cannot go on has served them all.
  lemma RequestsFinish(rs: seq<Request>, cap: nat, handle: seq<Request> -> nat, turns: seq<Actor>)
    requires (forall r :: r in rs ==> r.Fits()) && cap >= 2
    requires var c := Serving(rs, cap, handle); Busy(c, Init(), turns) && Stuck(c, Execute(c, Init(), turns))
    ensures var s := Execute(Serving(rs, cap, handle), Init(), turns);
            && Unpacked(s.seen) == rs && |s.results| == |rs|
            && forall j :: 0 <= j < |rs| ==> s.results[j] == handle(rs[..j + 1])
  {
    hide Pack, Unpack;
    PackedReadBack(rs);
    RunsFinish(Serving(rs, cap, handle), turns);
    RequestsAreServed(rs, cap, handle, turns);
    assert Packed(rs)[..|rs|] == Packed(rs) && rs[..|rs|] == rs;
  }
}
