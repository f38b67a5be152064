/** The command-list parser of the RDP, rdp_process_list of rdp/n64video.c.

    A call copies its list into a buffer in chunks and executes the complete
    commands there.  An incomplete command waits in the buffer for the next
    call, or is read again when the list goes on after the chunk.  However the
    stream is cut into calls, the commands executed are those of the stream. */
module RdpList {

  type Word = w: nat | w < 0x1_0000_0000

  const BUFFER: nat := 0x10000

  // ------------------------------------------------------------- the commands

  /** (word >> 24) & 0x3f. */
  function Opcode(w: Word): (op: nat)
    ensures op < 64
  {
    w / 0x100_0000 % 64
  }

  /** rdp_command_length, in words. */
  function Length(op: nat): (n: nat)
    ensures 2 <= n <= 44
  {
    match op
    case 8 => 8
    case 9 => 12
    case 10 => 24
    case 11 => 28
    case 12 => 24
    case 13 => 28
    case 14 => 40
    case 15 => 44
    case 36 => 4
    case 37 => 4
    case _ => 2
  }

  /** A triangle command has eight words of edges, and more for shade, texture and depth. */
  lemma TriangleLength(shade: bool, texture: bool, depth: bool)
    ensures Length(8 + (if shade then 4 else 0) + (if texture then 2 else 0) + (if depth then 1 else 0))
         == 8 + (if shade then 16 else 0) + (if texture then 16 else 0) + (if depth then 4 else 0)
  {
    if shade {
      assert Length(12) == 24 && Length(13) == 28 && Length(14) == 40 && Length(15) == 44;
    } else {
      assert Length(8) == 8 && Length(9) == 12 && Length(10) == 24 && Length(11) == 28;
    }
  }

  function Needed(ws: seq<Word>): nat
    requires ws != []
  {
    Length(Opcode(ws[0]))
  }

  type Command = seq<Word>

  /** The words begin with a complete command. */
  predicate Complete(ws: seq<Word>) { ws != [] && |ws| >= Needed(ws) }

  /** A stream as its complete commands and the words left over. */
  function Parse(ws: seq<Word>): (r: (seq<Command>, seq<Word>))
    ensures !Complete(r.1)
    decreases |ws|
  {
    if !Complete(ws) then ([], ws)
    else
      var (cmds, rest) := Parse(ws[Needed(ws)..]);
      ([ws[..Needed(ws)]] + cmds, rest)
  }

  function Flatten(cmds: seq<seq<Word>>): seq<Word> {
    if cmds == [] then [] else cmds[0] + Flatten(cmds[1..])
  }

  /** Nothing is lost: the commands and the rest make up the stream. */
  lemma {:induction false} ParseKeepsWords(ws: seq<Word>)
    ensures Flatten(Parse(ws).0) + Parse(ws).1 == ws
    decreases |ws|
  {
    if Complete(ws) {
      var n := Needed(ws);
      ParseKeepsWords(ws[n..]);
      var (cmds, rest) := Parse(ws[n..]);
      assert Parse(ws).0[1..] == cmds;
      assert ws == ws[..n] + ws[n..];
      assert ws[..n] + (Flatten(cmds) + rest) == ws[..n] + Flatten(cmds) + rest;
    }
  }

  /** Parsing the stream gives `done`, and then what parsing `rest` gives. */
  ghost predicate Continues(ws: seq<Word>, done: seq<Command>, rest: seq<Word>) {
    Parse(ws).0 == done + Parse(rest).0 && Parse(ws).1 == Parse(rest).1
  }

  lemma ContinuesOnce(ws: seq<Word>)
    ensures Continues(ws, [], ws)
    ensures Complete(ws) ==> Continues(ws, [ws[..Needed(ws)]], ws[Needed(ws)..])
  {
    hide Length, Opcode;
    assert [] + Parse(ws).0 == Parse(ws).0;
  }

  lemma ContinuesOn(a: seq<Word>, done: seq<Command>, b: seq<Word>, more: seq<Command>, c: seq<Word>)
    requires Continues(a, done, b) && Continues(b, more, c)
    ensures Continues(a, done + more, c)
  {
    hide Parse;
    assert done + (more + Parse(c).0) == done + more + Parse(c).0;
  }

  lemma ContinuesToEnd(ws: seq<Word>, done: seq<Command>, rest: seq<Word>)
    requires Continues(ws, done, rest) && !Complete(rest)
    ensures Parse(ws) == (done, rest)
  {
    assert done + [] == done;
  }

  /** More words after a stream: its rest and they are parsed together. */
  lemma {:induction false} ParseAppend(a: seq<Word>, b: seq<Word>)
    ensures Continues(a + b, Parse(a).0, Parse(a).1 + b)
    decreases |a|
  {
    if Complete(a) {
      var n := Needed(a);
      ParseAppend(a[n..], b);
      CompleteWithMore(a, b);
      ContinuesOnce(a + b);
      hide Complete, Needed, Continues;
      ContinuesOn(a + b, [a[..n]], a[n..] + b, Parse(a[n..]).0, Parse(a[n..]).1 + b);
    } else {
      ContinuesOnce(a + b);
    }
  }

  lemma CompleteWithMore(a: seq<Word>, b: seq<Word>)
    requires Complete(a)
    ensures Complete(a + b) && Needed(a + b) == Needed(a)
    ensures (a + b)[..Needed(a)] == a[..Needed(a)] && (a + b)[Needed(a)..] == a[Needed(a)..] + b
  {
    hide Length, Opcode;
  }

  // ---------------------------------------------------------------- the calls

  /** The words of a list: `read` is RDRAM, or DMEM with its addresses wrapped. */
  function Words(read: nat -> Word, from: nat, n: nat): (ws: seq<Word>)
    ensures |ws| == n
  {
    seq(n, k requires 0 <= k => read(from + k))
  }

  lemma WordsSplit(read: nat -> Word, from: nat, k: nat, n: nat)
    ensures Words(read, from, k + n) == Words(read, from, k) + Words(read, from + k, n)
  {
  }

  /** One call: what waited before, the list, the commands executed, and what waits after. */
  datatype Call = Call(before: seq<Word>, list: seq<Word>, commands: seq<Command>, after: seq<Word>) {
    ghost predicate Valid() { Parse(before + list) == (commands, after) }
  }

  function Lists(calls: seq<Call>): seq<Word> {
    if calls == [] then [] else Lists(calls[..|calls| - 1]) + calls[|calls| - 1].list
  }

  function Commands(calls: seq<Call>): seq<Command> {
    if calls == [] then [] else Commands(calls[..|calls| - 1]) + calls[|calls| - 1].commands
  }

  /** A run of calls, each of which starts with what the one before left waiting. */
  ghost predicate Run(calls: seq<Call>) {
    && (forall i :: 0 <= i < |calls| ==> calls[i].Valid())
    && (forall i :: 0 <= i < |calls| ==> calls[i].before == Waiting(calls[..i]))
  }

  /** What waits after some calls. */
  function Waiting(calls: seq<Call>): seq<Word> {
    if calls == [] then [] else calls[|calls| - 1].after
  }

  lemma OneMoreCall(stream: seq<Word>, done: seq<Command>, c: Call)
    requires Parse(stream) == (done, c.before) && c.Valid()
    ensures Parse(stream + c.list) == (done + c.commands, c.after)
  {
    hide Parse;
    ParseAppend(stream, c.list);
  }

  lemma RunPrefix(calls: seq<Call>)
    requires Run(calls) && calls != []
    ensures var last := |calls| - 1;
      Run(calls[..last]) && calls[last].Valid() && calls[last].before == Waiting(calls[..last])
  {
    hide Call.Valid, Waiting;
    var prefix := calls[..|calls| - 1];
    forall i | 0 <= i < |prefix| ensures prefix[i].before == Waiting(prefix[..i]) {
      assert prefix[..i] == calls[..i];
    }
  }

  /** A run executes the commands of the concatenated stream. */
  lemma {:induction false} RunParsesStream(calls: seq<Call>)
    requires Run(calls)
    ensures Parse(Lists(calls)) == (Commands(calls), Waiting(calls))
    decreases |calls|
  {
    if calls == [] {
      assert Parse([]) == ([], []);
    } else {
      RunPrefix(calls);
      hide Parse, Run, Call.Valid;
      var prefix := calls[..|calls| - 1];
      RunParsesStream(prefix);
      OneMoreCall(Lists(prefix), Commands(prefix), calls[|calls| - 1]);
    }
  }

  /** Two runs over the same stream execute the same commands, however it is cut. */
  lemma FragmentationDoesNotMatter(calls: seq<Call>, others: seq<Call>)
    requires Run(calls) && Run(others) && Lists(calls) == Lists(others)
    ensures Commands(calls) == Commands(others)
  {
    RunParsesStream(calls);
    RunParsesStream(others);
  }

  // ------------------------------------------------------------ the processor

  /** Address & ~7, as a word index. */
  function WordIndex(a: nat): nat { (a - a % 8) / 4 }

  function ListLength(current: nat, end: nat): (n: nat) {
    if WordIndex(end) <= WordIndex(current) then 0 else WordIndex(end) - WordIndex(current)
  }

  /** The words that a call gives the processor. */
  function List(read: nat -> Word, current: nat, end: nat): seq<Word> {
    Words(read, WordIndex(current), ListLength(current, end))
  }

  /** What the buffer holds and the first chunk of n words fit in it. */
  predicate Fits(ptr: nat, n: nat) { n == 0 || ptr + (if n > BUFFER then BUFFER else n) <= BUFFER }

  class Processor {
    const data: array<Word>
    var ptr: nat
    var cur: nat

    var start: nat
    var end: nat
    var current: nat
    var freeze: bool
    var ready: bool

    /** The commands executed so far. */
    var executed: seq<Command>

    ghost predicate Valid()
      reads this, data
    {
      data.Length == BUFFER && cur <= ptr <= BUFFER && !Complete(Pending())
    }

    /** The words that wait in the buffer. */
    ghost function Pending(): seq<Word>
      requires data.Length == BUFFER && cur <= ptr <= BUFFER
      reads this, data
    {
      data[cur..ptr]
    }

    constructor ()
      ensures Valid() && Pending() == [] && executed == [] && fresh(data)
    {
      data := new Word[BUFFER](_ => 0);
      ptr, cur := 0, 0;
      start, end, current := 0, 0, 0;
      freeze, ready := false, false;
      executed := [];
    }

    /** The loop that copies the next n words of the list to the end of the buffer. */
    method LoadWords(read: nat -> Word, from: nat, n: nat)
      requires data.Length == BUFFER && cur <= ptr && ptr + n <= BUFFER
      modifies this`ptr, data
      ensures ptr == old(ptr) + n
      ensures data[cur..ptr] == old(data[cur..ptr]) + Words(read, from, n)
    {
      var i := 0;
      while i < n
        invariant 0 <= i <= n && ptr == old(ptr) + i
        invariant data[cur..ptr] == old(data[cur..ptr]) + Words(read, from, i)
      {
        ghost var before := data[cur..ptr];
        data[ptr] := read(from + i);
        ptr := ptr + 1;
        assert data[cur..ptr] == before + [read(from + i)];
        WordsSplit(read, from, i, 1);
        i := i + 1;
      }
    }

    /** The loop that executes the complete commands of the buffer. */
    method Execute()
      requires data.Length == BUFFER && cur <= ptr <= BUFFER
      modifies this`cur, this`executed
      ensures cur <= ptr && (executed, data[cur..ptr]) == (old(executed) + Parse(old(data[cur..ptr])).0, Parse(old(data[cur..ptr])).1)
    {
      hide Length, Opcode, Parse, Continues;
      ghost var all := data[cur..ptr];
      ghost var done: seq<Command> := [];
      ContinuesOnce(all);
      while cur < ptr
        invariant cur <= ptr && executed == old(executed) + done && Continues(all, done, data[cur..ptr])
        decreases ptr - cur
      {
        var length := Length(Opcode(data[cur]));
        ghost var window := data[cur..ptr];
        if ptr - cur < length {
          break;
        }
        ContinuesOnce(window);
        var command := data[cur..cur + length];
        assert window[..length] == command && window[length..] == data[cur + length..ptr];
        ContinuesOn(all, done, window, [command], data[cur + length..ptr]);
        executed := executed + [command];
        done := done + [command];
        cur := cur + length;
      }
      ContinuesToEnd(all, done, data[cur..ptr]);
    }

    /** rdp_process_list.  It fails, by writing past the buffer, exactly when
        what the buffer holds and the list's first chunk do not fit in it. */
    method ProcessList(read: nat -> Word) returns (ok: bool)
      requires Valid()
      modifies this, data
      ensures ok == Fits(old(ptr), ListLength(old(current), old(end))) && !freeze
      ensures ok ==> Valid()
      ensures ok ==>
        var parsed := Parse(old(Pending()) + List(read, old(current), old(end)));
        executed == old(executed) + parsed.0 && Pending() == parsed.1
      ensures ok && ListLength(old(current), old(end)) > 0 ==>
        && start == old(start) % 0x100_0000 && end == current == old(end) % 0x100_0000
        && (Pending() == [] ==> ptr == 0 && ready) && (Pending() != [] ==> ready == old(ready))
      ensures ok && ListLength(old(current), old(end)) == 0 ==> (start, end, current, ready) == old((start, end, current, ready))
    {
      hide Parse, Words, Complete, WordIndex;
      var at, to := WordIndex(current), WordIndex(end);
      freeze := false;
      if to <= at {
        NothingToParse(Pending(), List(read, current, end));
        return true;
      }
      var length := to - at;
      if ptr + (if length > BUFFER then BUFFER else length) > BUFFER {
        return false;
      }
      assert List(read, current, end) == Words(read, at, length) && Fits(ptr, length);
      hide List, Fits, ListLength;
      RunList(read, at, length);
      start, end, current := start % 0x100_0000, end % 0x100_0000, end % 0x100_0000;
      if ptr == 0 {
        ready := true;
      }
      return true;
    }

    /** The outer loop of rdp_process_list: chunk after chunk, going back over an
        incomplete command when the list goes on. */
    method RunList(read: nat -> Word, from: nat, length: nat)
      requires Valid() && 0 < length && Fits(ptr, length)
      modifies this`ptr, this`cur, this`executed, data
      ensures Valid()
      ensures var parsed := Parse(old(Pending()) + Words(read, from, length));
        executed == old(executed) + parsed.0 && Pending() == parsed.1
      ensures Pending() == [] <==> ptr == 0
    {
      hide Parse, Words, Complete, Continues;
      var at: nat, remaining: nat := from, length;
      ghost var total := Pending() + Words(read, at, remaining);
      ghost var done: seq<Command> := [];
      ContinuesOnce(total);
      while remaining > 0
        invariant cur <= ptr <= BUFFER && Fits(ptr, remaining)
        invariant executed == old(executed) + done && Continues(total, done, data[cur..ptr] + Words(read, at, remaining))
        invariant remaining == 0 ==> ptr == 0
        decreases remaining
      {
        var n := if remaining > BUFFER then BUFFER else remaining;
        ghost var window := data[cur..ptr] + Words(read, at, n);
        ParseInChunks(total, done, data[cur..ptr], read, at, n, remaining - n);
        LoadWords(read, at, n);
        Execute();
        done := done + Parse(window).0;
        at, remaining := at + n, remaining - n;
        var left := ptr - cur;
        if left > 0 {
          if remaining == 0 {
            EndOfList(total, done, data[cur..ptr], read, at);
            return;
          }
          at, remaining := at - left, remaining + left;
        }
        ptr, cur := 0, 0;
      }
      EndOfList(total, done, data[cur..ptr], read, at);
    }
  }

  lemma NothingToParse(rest: seq<Word>, none: seq<Word>)
    requires !Complete(rest) && |none| == 0
    ensures Parse(rest + none) == ([], rest)
  {
    assert rest + none == rest;
  }

  lemma {:induction false} RestIsSuffix(ws: seq<Word>)
    ensures var rest := Parse(ws).1; |rest| <= |ws| && rest == ws[|ws| - |rest|..] && |rest| < 44
    decreases |ws|
  {
    if Complete(ws) {
      RestIsSuffix(ws[Needed(ws)..]);
    }
  }

  /** After the commands of a chunk, going back over the incomplete one and
      reading its words again continues the same stream. */
  lemma ParseInChunks(total: seq<Word>, done: seq<Command>, before: seq<Word>, read: nat -> Word, at: nat, n: nat, more: nat)
    requires Continues(total, done, before + Words(read, at, n + more))
    ensures var (cmds, rest) := Parse(before + Words(read, at, n));
      && |rest| < 44
      && Continues(total, done + cmds, rest + Words(read, at + n, more))
      && (n >= 44 ==> rest + Words(read, at + n, more) == [] + Words(read, at + n - |rest|, |rest| + more))
  {
    hide Parse, Continues;
    var window := before + Words(read, at, n);
    WordsSplit(read, at, n, more);
    assert before + Words(read, at, n + more) == window + Words(read, at + n, more);
    ParseAppend(window, Words(read, at + n, more));
    RestIsSuffix(window);
    var rest := Parse(window).1;
    ContinuesOn(total, done, window + Words(read, at + n, more), Parse(window).0, rest + Words(read, at + n, more));
    if n >= 44 {
      assert rest == Words(read, at + n - |rest|, |rest|);
      WordsSplit(read, at + n - |rest|, |rest|, more);
    }
  }

  lemma EndOfList(total: seq<Word>, done: seq<Command>, rest: seq<Word>, read: nat -> Word, at: nat)
    requires Continues(total, done, rest + Words(read, at, 0)) && (rest == [] || !Complete(rest))
    ensures Parse(total) == (done, rest) && !Complete(rest)
  {
    assert rest + Words(read, at, 0) == rest;
    ContinuesToEnd(total, done, rest);
  }
}
