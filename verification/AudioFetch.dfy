/** rsp/aspMain.cpp and src/main/rsp_aspmain_hook.cpp: how the audio microcode fetches its command list,
    in chunks of 0x140 bytes, through a DMEM buffer. The command handlers are left uninterpreted. */
module AudioFetch {

  import opened Basics

  const CHUNK := 0x140
  const BUFFER := 0x2B0

  datatype Command = Command(w0: int, w1: int)

  function CommandOf(b: seq<Byte>): Command
    requires |b| == 8
  {
    Command(WordOf(b[..4]), WordOf(b[4..]))
  }

  /** What the handlers act on: everything except the fetch registers and the chunk buffer. list is the
      command list they can see in RDRAM, exec the handler selected by the first word. */
  datatype Handlers<!Env(!new)> = Handlers(list: Env -> seq<Byte>, exec: (Env, Command) -> Env)
  {
    /** No handler writes into the command list. */
    ghost predicate KeepList() {
      forall e: Env, c: Command :: list(exec(e, c)) == list(e)
    }
  }

  /** The flat loop: all commands in order. */
  function Flat<Env(!new)>(h: Handlers<Env>, e: Env, commands: seq<Command>): Env
    decreases |commands|
  {
    if commands == [] then e
    else h.exec(Flat(h, e, commands[..|commands| - 1]), commands[|commands| - 1])
  }

  /** Byte j of the buffer once chunk c was fetched: a list byte, or, past the end of the list, what the
      fetch before left there. */
  function Fetched(list: seq<Byte>, before: seq<Byte>, c: nat, j: nat): Byte
    requires |before| == CHUNK && j < CHUNK && (c == 0 || CHUNK * c < |list|)
  {
    if CHUNK * c + j < |list| then list[CHUNK * c + j]
    else if c == 0 then before[j]
    else list[CHUNK * (c - 1) + j]
  }

  /** The 8 bytes of command i. */
  function Bytes(list: seq<Byte>, before: seq<Byte>, i: nat): (b: seq<Byte>)
    requires |before| == CHUNK && 8 * i < |list|
    ensures |b| == 8
  {
    seq<Byte>(8, j requires 0 <= j < 8 => Fetched(list, before, i / 40, 8 * (i % 40) + j))
  }

  function Commands(list: seq<Byte>, before: seq<Byte>, n: nat): (r: seq<Command>)
    requires |before| == CHUNK && (n == 0 || 8 * (n - 1) < |list|)
    ensures |r| == n
  {
    seq(n, i requires 0 <= i < n => CommandOf(Bytes(list, before, i)))
  }

  /** A command that lies inside the list is its word pair there, whatever chunk it came in. */
  lemma {:induction false} WholeCommand(list: seq<Byte>, before: seq<Byte>, i: nat)
    requires |before| == CHUNK && 8 * i + 8 <= |list|
    ensures Bytes(list, before, i) == list[8 * i..8 * i + 8]
  {
    var b := Bytes(list, before, i);
    forall j | 0 <= j < 8
      ensures b[j] == list[8 * i..8 * i + 8][j]
    {
      assert b[j] == Fetched(list, before, i / 40, 8 * (i % 40) + j);
      assert CHUNK * (i / 40) + 8 * (i % 40) + j == 8 * i + j;
    }
  }

  /** The one command that may reach past the end of the list starts with the list's last bytes. */
  lemma {:induction false} LastCommand(list: seq<Byte>, before: seq<Byte>, i: nat)
    requires |before| == CHUNK && 8 * i < |list| < 8 * i + 8
    ensures var r := |list| - 8 * i;
            Bytes(list, before, i) == list[8 * i..] + (if i < 40 then before[8 * i + r..8 * i + 8]
                                                        else list[8 * i - CHUNK + r..8 * i - CHUNK + 8])
  {
    var r := |list| - 8 * i;
    var rest := if i < 40 then before[8 * i + r..8 * i + 8] else list[8 * i - CHUNK + r..8 * i - CHUNK + 8];
    var b := Bytes(list, before, i);
    forall j | 0 <= j < 8
      ensures b[j] == (list[8 * i..] + rest)[j]
    {
      assert b[j] == Fetched(list, before, i / 40, 8 * (i % 40) + j);
      assert CHUNK * (i / 40) + 8 * (i % 40) + j == 8 * i + j;
    }
  }

  lemma {:induction false} NextIndex(i: nat)
    ensures if i % 40 < 39 then (i + 1) / 40 == i / 40 && (i + 1) % 40 == i % 40 + 1
            else (i + 1) / 40 == i / 40 + 1 && (i + 1) % 40 == 0
  {
  }

  class AspMain<Env(!new)> {
    const h: Handlers<Env>
    var env: Env
    const buffer: array<Byte>   // DMEM 0x2B0..0x3F0
    var r27: int                // bytes of the list not yet fetched into a command
    var r28: int                // address of the next command
    var r29: int                // DMEM address of the current command
    var r30: int                // bytes of the chunk not yet executed
    ghost var trace: seq<Command>

    constructor (h: Handlers<Env>, env: Env, buffer: array<Byte>)
      requires buffer.Length == CHUNK
      ensures this.h == h && this.env == env && this.buffer == buffer && trace == []
    {
      this.h, this.env, this.buffer := h, env, buffer;
      r27, r28, r29, r30 := 0, 0, 0, 0;
      trace := [];
    }

    /** DMA of n bytes of the list at address dram, which starts at `start`. */
    method Dma(start: int, dram: int, n: int)
      requires 0 < n <= CHUNK && buffer.Length == CHUNK && 0 <= dram - start && dram - start + n <= |h.list(env)|
      modifies buffer
      ensures forall j :: 0 <= j < n ==> buffer[j] == h.list(env)[dram - start + j]
      ensures forall j :: n <= j < CHUNK ==> buffer[j] == old(buffer[j])
    {
      var list := h.list(env);
      forall j | 0 <= j < n {
        buffer[j] := list[dram - start + j];
      }
    }

    // The invariant of the command loop before command i, in the terms of the list at `start`
    ghost predicate At(start: int, list: seq<Byte>, before: seq<Byte>, i: nat)
      reads this, buffer
      requires |before| == CHUNK
    {
      var c, o := i / 40, i % 40;
      && buffer.Length == CHUNK && 8 * i < |list| && h.list(env) == list
      && r27 == |list| - 8 * i && r28 == start + 8 * i && r29 == BUFFER + 8 * o
      && r30 == (if |list| - CHUNK * c < CHUNK then |list| - CHUNK * c else CHUNK) - 8 * o
      && (forall j :: 0 <= j < CHUNK ==> buffer[j] == Fetched(list, before, c, j))
      && trace == Commands(list, before, i)
    }

    // Between the handler of command i and the branches that follow it
    ghost predicate Executed(start: int, list: seq<Byte>, before: seq<Byte>, i: nat)
      reads this, buffer
      requires |before| == CHUNK
    {
      var c, o := i / 40, i % 40;
      && buffer.Length == CHUNK && 8 * i < |list| && h.list(env) == list
      && r27 == |list| - 8 * i - 8 && r28 == start + 8 * i + 8 && r29 == BUFFER + 8 * o
      && r30 == (if |list| - CHUNK * c < CHUNK then |list| - CHUNK * c else CHUNK) - 8 * o - 8
      && (forall j :: 0 <= j < CHUNK ==> buffer[j] == Fetched(list, before, c, j))
      && trace == Commands(list, before, i + 1)
    }

    /** L_1120 to L_1144: the next chunk, at most CHUNK bytes. */
    method Refill(ghost start: int, ghost list: seq<Byte>, ghost before: seq<Byte>, ghost c: nat)
      requires |before| == CHUNK == buffer.Length && h.list(env) == list
      requires CHUNK * c < |list| && r27 == |list| - CHUNK * c && r28 == start + CHUNK * c
      requires forall j :: 0 <= j < CHUNK && |list| <= CHUNK * c + j ==>
        buffer[j] == if c == 0 then before[j] else list[CHUNK * (c - 1) + j]
      requires trace == Commands(list, before, 40 * c)
      modifies this`r29, this`r30, buffer
      ensures At(start, list, before, 40 * c)
    {
      var r3 := r27;
      if r3 - 0x140 > 0 {
        r3 := 0x140;
      }
      r30 := r3;
      Dma(r28 - (|h.list(env)| - r27), r28, r3);
      r29 := BUFFER;
    }

    /** L_10C8 to L_10EC: fetch one command, run its handler, step the counters. */
    method Step(ghost start: int, ghost list: seq<Byte>, ghost before: seq<Byte>, ghost i: nat)
      requires |before| == CHUNK && At(start, list, before, i) && h.KeepList()
      modifies this
      ensures Executed(start, list, before, i)
      ensures trace == old(trace) + [trace[i]]
      ensures env == h.exec(old(env), trace[i])
    {
      hide Fetched, WordOf;
      var o := r29 - BUFFER;
      var r26 := WordOf(buffer[o..o + 4]);
      var r25 := WordOf(buffer[o + 4..o + 8]);
      r28 := r28 + 8;
      r27 := r27 - 8;
      ghost var b := Bytes(list, before, i);
      assert buffer[o..o + 4] == b[..4] && buffer[o + 4..o + 8] == b[4..];
      trace := trace + [Command(r26, r25)];
      env := h.exec(env, Command(r26, r25));
      r30 := r30 - 8;
    }

    /** L_10EC: the next command of the chunk, a refill, or the end of the list. */
    method Next(ghost start: int, ghost list: seq<Byte>, ghost before: seq<Byte>, ghost i: nat) returns (done: bool)
      requires |before| == CHUNK && Executed(start, list, before, i)
      modifies this`r29, this`r30, buffer
      ensures done <==> |list| <= 8 * (i + 1)
      ensures !done ==> At(start, list, before, i + 1)
    {
      NextIndex(i);
      if r30 > 0 {
        r29 := r29 + 8;
        return false;
      }
      r29 := r29 + 8;
      if r27 <= 0 {
        return true;
      }
      Refill(start, list, before, (i + 1) / 40);
      return false;
    }

    /** L_10AC to the break: refetch the first chunk, then command after command, a refill whenever a
        chunk is used up, until the byte counter runs out. */
    method Run(ghost start: int, ghost list: seq<Byte>, ghost before: seq<Byte>)
      requires |before| == CHUNK == buffer.Length && h.KeepList()
      requires h.list(env) == list && list != [] && r27 == |list| && r28 == start && trace == []
      requires forall j :: 0 <= j < CHUNK && |list| <= j ==> buffer[j] == before[j]
      modifies this, buffer
      ensures trace == Commands(list, before, (|list| + 7) / 8)
      ensures env == Flat(h, old(env), trace)
    {
      hide Fetched, Commands;
      Refill(start, list, before, 0);
      ghost var i := 0;
      while true
        invariant At(start, list, before, i)
        invariant env == Flat(h, old(env), trace)
        decreases |list| - 8 * i
      {
        ghost var was := trace;
        Step(start, list, before, i);
        assert trace[..|trace| - 1] == was;
        var done := Next(start, list, before, i);
        if done {
          break;
        }
        i := i + 1;
      }
    }

    /** A whole audio task: the pre-task hook preloads the first chunk and seeds the counters, the entry
        code takes them over (or reads the same values from the task header), then the commands run. */
    method Task(ghost before: seq<Byte>, dataPtr: int, dataSize: int)
      requires before == buffer[..] && buffer.Length == CHUNK && h.KeepList()
      requires dataPtr != 0 && |h.list(env)| == dataSize && 0 < dataSize < 0x8000_0000 && trace == []
      modifies this, buffer
      ensures trace == Commands(h.list(old(env)), before, (dataSize + 7) / 8)
      ensures env == Flat(h, old(env), trace)
    {
      var chunk := if dataSize > CHUNK then CHUNK else dataSize;
      Dma(dataPtr, dataPtr, chunk);
      r29 := BUFFER;
      r30 := chunk;
      r27 := dataSize;
      r28 := dataPtr;
      Run(dataPtr, h.list(env), before);
    }
  }

  /** A list of whole commands is executed as the flat loop over its word pairs. */
  lemma {:induction false} WholeList(list: seq<Byte>, before: seq<Byte>, i: nat)
    requires |before| == CHUNK && |list| % 8 == 0 && 8 * i < |list|
    ensures Commands(list, before, (|list| + 7) / 8)[i] == Command(WordOf(list[8 * i..8 * i + 4]),
              WordOf(list[8 * i + 4..8 * i + 8]))
    ensures |Commands(list, before, (|list| + 7) / 8)| == |list| / 8
  {
    WholeCommand(list, before, i);
    var b := Bytes(list, before, i);
    assert b[..4] == list[8 * i..8 * i + 4] && b[4..] == list[8 * i + 4..8 * i + 8];
  }
}
