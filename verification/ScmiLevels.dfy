/** Retrieval of a performance domain's level table from the SCP, which returns it in pieces (section
    4.5.2.5 of the SCMI specification).  Requests and replies share the words of one mailbox. */
module ScmiLevels {
  import opened Bitwise

  const LEVEL_BYTES: nat := 12
  const MAX_RETURNED: nat := 0xFFF
  const MAX_REMAINING: nat := 0xFFFF
  const SCMI_SUCCESS: nat := 0

  datatype Level = Level(level: nat, powerCost: nat, latency: nat)

  datatype Status = Success | BufferTooSmall | DeviceError

  datatype Request = Request(domain: nat, index: nat)

  /** An SCP: each domain's level table, how many levels it returns from a given index, what it puts in the
      unused bits 15:12 of the count word, and which requests fail. */
  datatype Scp = Scp(table: nat -> seq<Level>, chunk: Request -> nat, unused: Request -> nat, fails: Request -> bool) {
    /** It makes progress until a table is exhausted, its counts fit their fields, and it refuses an index
        beyond the end of a table. */
    ghost predicate Honest() {
      forall r: Request {:trigger chunk(r)} {:trigger fails(r)} ::
        if r.index <= |table(r.domain)| then
          && chunk(r) <= |table(r.domain)| - r.index && chunk(r) <= MAX_RETURNED
          && |table(r.domain)| - r.index - chunk(r) <= MAX_REMAINING
          && (r.index < |table(r.domain)| ==> chunk(r) > 0) && unused(r) < 16
        else fails(r)
    }

    /** The count word of the reply to a request. */
    function CountWord(r: Request): nat
      requires r.index + chunk(r) <= |table(r.domain)|
    {
      chunk(r) + 0x1000 * unused(r) + 0x1_0000 * (|table(r.domain)| - r.index - chunk(r))
    }

    /** How many levels of a domain come with the first reply. */
    function FirstCount(domain: nat): nat { chunk(Request(domain, 0)) }
  }

  /** NUM_PERF_LEVELS: bits 11:0. */
  function NumLevels(word: nat): nat {
    And(word, 0xFFF)
  }

  /** NUM_REMAIN_PERF_LEVELS: bits 31:16. */
  function NumRemaining(word: nat): nat {
    word / 0x1_0000
  }

  lemma TwoToTwelve()
    ensures Pow2(12) == 0x1000
  {
  }

  lemma FieldsApart(n: nat, u: nat, r: nat)
    requires n <= MAX_RETURNED && u < 16
    ensures (n + 0x1000 * u + 0x1_0000 * r) % 0x1000 == n
    ensures (n + 0x1000 * u + 0x1_0000 * r) / 0x1_0000 == r
  {
  }

  lemma CountsDecode(scp: Scp, r: Request)
    requires scp.Honest() && r.index <= |scp.table(r.domain)|
    ensures NumLevels(scp.CountWord(r)) == scp.chunk(r)
    ensures NumRemaining(scp.CountWord(r)) == |scp.table(r.domain)| - r.index - scp.chunk(r)
  {
    hide And, Pow2;
    TwoToTwelve();
    AndLowMask(scp.CountWord(r), 12);
    FieldsApart(scp.chunk(r), scp.unused(r), |scp.table(r.domain)| - r.index - scp.chunk(r));
  }

  // ----- what the replies put together --------------------------------------------------------

  /** The levels gathered for a domain whose table is `own`, when the first reply brings `n` of them: if more
      remain they are asked of domain 0, whose table is `zero`. */
  function Assemble(domain: nat, own: seq<Level>, n: nat, zero: seq<Level>): seq<Level>
    requires n <= |own|
  {
    if domain == 0 || n == |own| then own else own[..n] + if n <= |zero| then zero[n..] else []
  }

  /** The levels gathered are the domain's table, whatever domain 0 holds (if it answers at all), if and only if
      the domain is 0 or the first reply leaves nothing remaining. */
  lemma ExactWhateverIff(domain: nat, own: seq<Level>, n: nat)
    requires n <= |own|
    ensures (forall zero :: n <= |zero| ==> Assemble(domain, own, n, zero) == own) <==> domain == 0 || n == |own|
  {
    if domain != 0 && n < |own| {
      assert |Assemble(domain, own, n, own[..n])| == n;
    }
  }

  /** For a given table of domain 0 there is one more way: it goes on as the domain's own does. */
  lemma ExactIff(domain: nat, own: seq<Level>, n: nat, zero: seq<Level>)
    requires n <= |own|
    ensures Assemble(domain, own, n, zero) == own <==>
      domain == 0 || n == |own| || (n <= |zero| && zero[n..] == own[n..])
  {
    if domain != 0 && n < |own| {
      assert own == own[..n] + own[n..];
      if n <= |zero| && own[..n] + zero[n..] == own {
        assert (own[..n] + zero[n..])[n..] == zero[n..];
      }
    }
  }

  /** When the domain's table fits in `size` bytes, what is written does too, if and only if the domain is 0,
      the first reply leaves nothing remaining, or domain 0's table fits as well. */
  lemma WritesFitIff(domain: nat, own: seq<Level>, n: nat, zero: seq<Level>, size: nat)
    requires n <= |own| && LEVEL_BYTES * |own| <= size
    ensures LEVEL_BYTES * |Assemble(domain, own, n, zero)| <= size <==>
      domain == 0 || n == |own| || LEVEL_BYTES * |zero| <= size
  {
  }

  ghost function Assembled(scp: Scp, domain: nat): seq<Level>
    requires scp.Honest()
  {
    Assemble(domain, scp.table(domain), scp.FirstCount(domain), scp.table(0))
  }

  /** The SCP answers every request that the retrieval makes. */
  ghost predicate Answers(scp: Scp, domain: nat) {
    var n := scp.FirstCount(domain);
    && !scp.fails(Request(domain, 0))
    && (n == |scp.table(domain)|
        || (n <= |scp.table(0)| && forall i :: n <= i <= |scp.table(0)| ==> !scp.fails(Request(0, i))))
  }

  /** Two levels each in domains 0 and 1, one to a reply: domain 1 is returned with a level of domain 0. */
  lemma WrongLevelExample() returns (scp: Scp)
    ensures scp.Honest() && Answers(scp, 1)
    ensures |scp.table(1)| == |scp.table(0)| == 2 && Assembled(scp, 1) ==
      [scp.table(1)[0], scp.table(0)[1]] != scp.table(1)
  {
    var zero := [Level(1, 0, 0), Level(2, 0, 0)];
    var one := [Level(10, 0, 0), Level(20, 0, 0)];
    scp := Scp(d => if d == 1 then one else zero, (r: Request) => if r.index < 2 then 1 else 0, r => 0,
               (r: Request) => r.index > 2);
    assert scp.table(1) == one && scp.table(0) == zero;
    assert one[..1] + zero[1..] == [one[0], zero[1]];
  }

  /** The mailbox: payload word 0 holds the domain of a request and the status of a reply; word 1 the level
      index of a request and the count word of a reply; the levels of a reply follow. */
  class Mailbox {
    var word0: nat
    var word1: nat
    var levels: seq<Level>
    ghost var asked: seq<Request>

    constructor ()
      ensures asked == []
    {
      word0, word1, levels, asked := 0, 0, [], [];
    }

    /** ScmiCommandExecute: the SCP reads the request from the payload and puts its reply there. */
    method Execute(scp: Scp) returns (ok: bool)
      requires scp.Honest()
      modifies this
      ensures asked == old(asked) + [Request(old(word0), old(word1))]
      ensures ok == !scp.fails(Request(old(word0), old(word1)))
      ensures ok ==>
        var r := Request(old(word0), old(word1));
        && r.index + scp.chunk(r) <= |scp.table(r.domain)| && word0 == SCMI_SUCCESS && word1 == scp.CountWord(r)
        && levels == scp.table(r.domain)[r.index..r.index + scp.chunk(r)]
    {
      var r := Request(word0, word1);
      asked := asked + [r];
      ok := !scp.fails(r);
      if ok {
        word0, word1 := SCMI_SUCCESS, scp.CountWord(r);
        levels := scp.table(r.domain)[r.index..r.index + scp.chunk(r)];
      }
    }

    /** One turn of the retrieval: only the level index is written anew. */
    method Ask(scp: Scp, index: nat) returns (ok: bool, n: nat, left: nat)
      requires scp.Honest()
      modifies this
      ensures asked == old(asked) + [Request(old(word0), index)]
      ensures ok == !scp.fails(Request(old(word0), index))
      ensures ok ==>
        var r := Request(old(word0), index);
        && n == scp.chunk(r) && r.index + n + left == |scp.table(r.domain)| && word0 == SCMI_SUCCESS
        && levels == scp.table(r.domain)[r.index..r.index + n]
    {
      hide Scp.CountWord, NumLevels, NumRemaining;
      n, left := 0, 0;
      word1 := index;
      ok := Execute(scp);
      if ok {
        CountsDecode(scp, Request(old(word0), index));
        n, left := NumLevels(word1), NumRemaining(word1);
      }
    }
  }

  lemma SliceJoin(s: seq<Level>, i: nat, j: nat)
    requires i <= j <= |s|
    ensures s[..i] + s[i..j] == s[..j]
  {
  }

  /** What has been gathered when `index` levels are there: in phase 1 after one reply, in phase 0 after
      more. */
  ghost predicate Gathered(scp: Scp, domain: nat, index: nat, remaining: nat, phase: nat)
    requires scp.Honest()
  {
    var own, zero, n := scp.table(domain), scp.table(0), scp.FirstCount(domain);
    && index <= |Assembled(scp, domain)|
    && if phase == 1 then index == n && remaining == |own| - n
       else n < |own| && n <= index <= |zero| && remaining == |zero| - index
  }

  /** The next reply continues what is to be gathered, and comes nearer to the end. */
  lemma GatherMore(scp: Scp, domain: nat, index: nat, remaining: nat, phase: nat, r: Request)
    requires scp.Honest() && phase <= 2 && !scp.fails(r) && r.index == index && remaining != 0
    requires phase == 2 ==> index == 0 && r.domain == domain
    requires phase < 2 ==> Gathered(scp, domain, index, remaining, phase) && r.domain == 0
    ensures index + scp.chunk(r) <= |scp.table(r.domain)| && index + scp.chunk(r) <= |Assembled(scp, domain)|
    ensures var more, left := index + scp.chunk(r), |scp.table(r.domain)| - index - scp.chunk(r);
      && Gathered(scp, domain, more, left, if phase == 2 then 1 else 0)
      && Assembled(scp, domain)[index..more] == scp.table(r.domain)[index..more]
      && (left == 0 ==> more == |Assembled(scp, domain)|)
    ensures phase == 0 ==> scp.chunk(r) > 0 && index < |scp.table(0)|
    ensures phase < 2 ==> |scp.table(domain)| > 0
  {
    assert scp.chunk(r) >= 0;
    assert scp.chunk(Request(domain, 0)) >= 0;
  }

  lemma NoAnswer(scp: Scp, domain: nat, index: nat, remaining: nat, phase: nat, r: Request)
    requires scp.Honest() && phase <= 2 && scp.fails(r) && r.index == index && remaining != 0
    requires phase == 2 ==> index == 0 && r.domain == domain
    requires phase < 2 ==> Gathered(scp, domain, index, remaining, phase) && r.domain == 0
    ensures !Answers(scp, domain)
  {
    assert r == Request(r.domain, index);
  }

  /** The first request names the domain, the others name domain 0. */
  ghost predicate Named(log: seq<Request>, domain: nat) {
    |log| > 0 && log[0] == Request(domain, 0) && forall k :: 0 < k < |log| ==> log[k].domain == 0
  }

  ghost predicate Asked(log: seq<Request>, domain: nat, phase: nat) {
    if phase == 2 then log == [] else Named(log, domain) && (|log| == 1 <==> phase == 1)
  }

  lemma FinishedWhen(scp: Scp, domain: nat, index: nat, remaining: nat, phase: nat, log: seq<Request>)
    requires scp.Honest() && phase < 2 && remaining == 0 && Gathered(scp, domain, index, remaining, phase)
    requires Asked(log, domain, phase)
    ensures Named(log, domain) && (|log| == 1 <==> scp.FirstCount(domain) == |scp.table(domain)|)
  {
  }

  lemma AskedNothing(domain: nat)
    ensures Asked([], domain, 2)
  {
  }

  lemma AskedStep(log: seq<Request>, domain: nat, phase: nat, r: Request)
    requires Asked(log, domain, phase) && phase <= 2
    requires r.domain == (if phase == 2 then domain else 0) && (phase == 2 ==> r.index == 0)
    ensures Asked(log + [r], domain, if phase == 2 then 1 else 0) && Named(log + [r], domain)
  {
  }

  /** Copy the levels of a reply into memory. */
  method CopyLevels(reply: seq<Level>, memory: array<Level>, index: nat)
    requires index + |reply| <= memory.Length
    modifies memory
    ensures memory[..index + |reply|] == old(memory[..index]) + reply
    ensures forall j :: index + |reply| <= j < memory.Length ==> memory[j] == old(memory[j])
  {
    var k := 0;
    while k < |reply|
      invariant 0 <= k <= |reply| && memory[..index + k] == old(memory[..index]) + reply[..k]
      invariant forall j :: index + k <= j < memory.Length ==> memory[j] == old(memory[j])
    {
      memory[index + k] := reply[k];
      k := k + 1;
    }
  }

  /** PerformanceDescribeLevels.  `memory` is the memory from the caller's array on, of which the array is the
      first `size` bytes.  The first request names the domain and all later ones domain 0, because the
      status of a reply lands on the word that holds the domain.  A buffer that is too small is left
      untouched and the size needed is returned. */
  method DescribeLevels(scp: Scp, box: Mailbox, domain: nat, size: nat, memory: array<Level>)
    returns (status: Status, numLevels: nat, newSize: nat, ghost log: seq<Request>)
    requires scp.Honest() && size <= LEVEL_BYTES * memory.Length && |scp.table(0)| <= memory.Length
    modifies box, memory
    ensures box.asked == old(box.asked) + log && Named(log, domain)
    ensures scp.fails(Request(domain, 0)) ==> status == DeviceError && memory[..] == old(memory[..])
    ensures status == DeviceError ==> exists r :: r in log && scp.fails(r)
    ensures status == BufferTooSmall <==> !scp.fails(Request(domain, 0)) && 12 * |scp.table(domain)| > size
    ensures status == BufferTooSmall ==> memory[..] == old(memory[..])
    ensures status != DeviceError ==> numLevels == |scp.table(domain)| && newSize == 12 * |scp.table(domain)|
    ensures Answers(scp, domain) ==> status != DeviceError
    ensures status == Success ==>
      var got := Assembled(scp, domain);
      && |got| <= memory.Length && memory[..|got|] == got && memory[|got|..] == old(memory[..])[|got|..]
      && (|log| == 1 <==> scp.FirstCount(domain) == |scp.table(domain)|)
  {
    hide Scp.Honest, Gathered, Assembled, Answers, Asked, Named;
    var index, required, remaining := 0, 0, 1;
    numLevels, newSize, log := 0, size, [];
    box.word0 := domain;
    ghost var phase: nat := 2;
    AskedNothing(domain);
    while remaining != 0
      invariant phase <= 2 && 0 <= index && 0 <= remaining
      invariant phase == 2 ==> index == 0 && remaining == 1 && required == 0 && box.word0 == domain
      invariant phase < 2 ==> Gathered(scp, domain, index, remaining, phase) && index <= |Assembled(scp, domain)|
      invariant phase < 2 && remaining == 0 ==> index == |Assembled(scp, domain)|
      invariant phase < 2 ==> box.word0 == SCMI_SUCCESS && !scp.fails(Request(domain, 0))
      invariant phase < 2 ==> numLevels == |scp.table(domain)| && required == LEVEL_BYTES * numLevels <= size
      invariant Asked(log, domain, phase) && box.asked == old(box.asked) + log
      invariant index <= memory.Length && (phase < 2 ==> memory[..index] == Assembled(scp, domain)[..index])
      invariant forall j :: index <= j < memory.Length ==> memory[j] == old(memory[j])
      decreases phase, |scp.table(0)| - index
    {
      ghost var r := Request(box.word0, index);
      var ok, n, left := box.Ask(scp, index);
      AskedStep(log, domain, phase, r);
      log := log + [r];
      if !ok {
        assert r in log;
        NoAnswer(scp, domain, index, remaining, phase, r);
        return DeviceError, numLevels, newSize, log;
      }
      GatherMore(scp, domain, index, remaining, phase, r);
      if required == 0 {
        numLevels := n + left;
        required := numLevels * LEVEL_BYTES;
        if required > size {
          return BufferTooSmall, numLevels, required, log;
        }
      }
      CopyLevels(box.levels, memory, index);
      SliceJoin(Assembled(scp, domain), index, index + n);
      index, remaining := index + n, left;
      phase := if phase == 2 then 1 else 0;
    }
    FinishedWhen(scp, domain, index, remaining, phase, log);
    return Success, numLevels, required, log;
  }

  /** Asking with no room and retrying with the size returned: if the SCP answers, the caller has `numLevels`
      levels, of which those of the first reply are right; all are if the domain is 0 or nothing remained. */
  method DescribeWithRetry(scp: Scp, box: Mailbox, domain: nat) returns (status: Status, table: seq<Level>)
    requires scp.Honest() && Answers(scp, domain)
    modifies box
    ensures status == Success && |table| == |scp.table(domain)|
    ensures var n := scp.FirstCount(domain);
      && table[..n] == scp.table(domain)[..n]
      && (domain == 0 || n == |scp.table(domain)| ==> table == scp.table(domain))
    ensures forall j :: 0 <= j < |table| && j < |Assembled(scp, domain)| ==> table[j] == Assembled(scp, domain)[j]
  {
    var memory := new Level[|scp.table(0)|](_ => Level(0, 0, 0));
    var numLevels, size;
    ghost var log;
    status, numLevels, size, log := DescribeLevels(scp, box, domain, 0, memory);
    memory := new Level[numLevels + |scp.table(0)|](_ => Level(0, 0, 0));
    status, numLevels, size, log := DescribeLevels(scp, box, domain, size, memory);
    table := memory[..numLevels];
    ghost var got := Assembled(scp, domain);
    assert forall j :: 0 <= j < numLevels && j < |got| ==> table[j] == memory[..|got|][j];
  }
}
