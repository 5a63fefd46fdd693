/** The RAM upload protocol: stop-and-wait client, lossy channel, CRC-checking server. */
module Upload {
  import opened Crc
  import opened Memory
  import opened Options

  const CHUNK: nat := 1024
  const HEADER: nat := 16
  const REQ: nat := 0
  const ACK: nat := 1
  const RETRY: nat := 2
  const RAMWRITE: nat := 0x21

  /** udpcli_cmd with its trailing payload. */
  datatype Cmd = Cmd(cmdAck: nat, cmdType: nat, totalLen: nat, addr: nat, size: nat, buff: seq<u8>)

  // ---------- Server ----------

  /** The server accepts a command exactly when the CRC of the whole payload is zero. */
  predicate Accepted(c: Cmd) {
    CrcRaw(c.buff) == 0
  }

  predicate Fits(ram: seq<u8>, c: Cmd) {
    c.cmdAck == REQ && c.cmdType == RAMWRITE && c.size <= |c.buff| && c.addr + c.size <= |ram|
  }

  function Handled(ram: seq<u8>, c: Cmd): (r: seq<u8>)
    requires Fits(ram, c)
    ensures |r| == |ram|
  {
    if Accepted(c) then Overwrite(ram, c.addr, c.buff[..c.size]) else ram
  }

  function Reply(c: Cmd): Cmd {
    Cmd(if Accepted(c) then ACK else RETRY, c.cmdType, HEADER, c.addr, c.size, [])
  }

  /** The RAMWRITE branch of udpcli_recv; `down` tells that the network device was shut down. */
  method UdpcliRecv(ram: array<u8>, date: Cmd) returns (reply: Cmd, down: bool)
    requires Fits(ram[..], date) && date.totalLen - HEADER == |date.buff| < 0x2000_0000
    modifies ram
    ensures ram[..] == Handled(old(ram[..]), date) && reply == Reply(date)
    ensures down <==> !Accepted(date)
  {
    var cmd := date;
    down := false;
    var crc := Crc32Raw(cmd.buff);
    if crc != 0 {
      cmd := cmd.(cmdAck := RETRY);
      down := true;
    } else {
      Memcpy(ram, cmd.addr, cmd.buff, cmd.size);
      cmd := cmd.(cmdAck := ACK);
    }
    reply := cmd.(totalLen := HEADER, buff := []);
  }

  // ---------- The file in pieces ----------

  function ChunkSize(file: seq<u8>, i: nat): nat
    requires i * CHUNK < |file|
  {
    if |file| - i * CHUNK < CHUNK then |file| - i * CHUNK else CHUNK
  }

  /** A command the client sends for chunk i: the file's bytes, whatever follows them, and the CRC. */
  ghost predicate ChunkCmd(file: seq<u8>, dest: nat, c: Cmd, i: nat) {
    && i * CHUNK < |file|
    && c.cmdAck == REQ && c.cmdType == RAMWRITE && c.totalLen == HEADER + |c.buff|
    && c.addr == dest + i * CHUNK && c.size == ChunkSize(file, i)
    && |c.buff| == CHUNK + 4 && c.buff[..c.size] == file[i * CHUNK..i * CHUNK + c.size]
    && CrcRaw(c.buff) == 0
  }

  ghost predicate FileCmd(file: seq<u8>, dest: nat, c: Cmd) {
    exists i :: ChunkCmd(file, dest, c, i)
  }

  /** The bytes of a command's range hold the file's bytes. */
  ghost predicate Written(ram: seq<u8>, file: seq<u8>, dest: nat, c: Cmd) {
    forall a :: c.addr <= a < c.addr + c.size && dest <= a < dest + |file| && a < |ram| ==> ram[a] == file[a - dest]
  }

  /** Every byte is the initial one, or inside the destination range the file's. */
  ghost predicate Intact(ram0: seq<u8>, ram: seq<u8>, file: seq<u8>, dest: nat) {
    && |ram| == |ram0|
    && forall a :: 0 <= a < |ram| ==>
         (ram[a] == ram0[a] || (dest <= a < dest + |file| && ram[a] == file[a - dest]))
  }

  // ---------- The channel ----------

  /** Everything ever sent either way; a datagram may be delivered never, late, or many times. */
  datatype World = World(ram: seq<u8>, sent: seq<Cmd>, replies: seq<Cmd>)

  datatype Event = Send(cmd: Cmd) | Deliver(index: nat, payload: seq<u8>)

  ghost predicate Damage(a: seq<u8>, b: seq<u8>) {
    exists at :: WithinBurst(a, b, at)
  }

  /** The client sends file commands; the channel delivers a sent command, its payload damaged by one burst at most. */
  ghost predicate Possible(w: World, e: Event, file: seq<u8>, dest: nat) {
    match e
    case Send(c) => FileCmd(file, dest, c)
    case Deliver(k, payload) => k < |w.sent| && Damage(w.sent[k].buff, payload)
  }

  ghost function Next(w: World, e: Event): World {
    match e
    case Send(c) => w.(sent := w.sent + [c])
    case Deliver(k, payload) =>
      if k < |w.sent| && Fits(w.ram, w.sent[k].(buff := payload)) then Answer(w, w.sent[k].(buff := payload)) else w
  }

  /** The server handles a command and answers it. */
  ghost function Answer(w: World, c: Cmd): World
    requires Fits(w.ram, c)
  {
    w.(ram := Handled(w.ram, c), replies := w.replies + [Reply(c)])
  }

  ghost function After(w: World, es: seq<Event>): World {
    if es == [] then w else Next(After(w, es[..|es| - 1]), es[|es| - 1])
  }

  ghost predicate Run(w: World, es: seq<Event>, file: seq<u8>, dest: nat) {
    forall i {:trigger es[i]} :: 0 <= i < |es| ==> Possible(After(w, es[..i]), es[i], file, dest)
  }

  /** The command or reply names chunk i of the file by its address and size. */
  ghost predicate NamesChunk(file: seq<u8>, dest: nat, c: Cmd, i: nat) {
    i * CHUNK < |file| && c.addr == dest + i * CHUNK && c.size == ChunkSize(file, i)
  }

  ghost predicate NamesSome(file: seq<u8>, dest: nat, c: Cmd) {
    exists i :: NamesChunk(file, dest, c, i)
  }

  /** Reply k acknowledges a write that covered address `a`. */
  predicate AckCovers(replies: seq<Cmd>, k: nat, a: nat) {
    k < |replies| && replies[k].cmdAck == ACK && replies[k].addr <= a < replies[k].addr + replies[k].size
  }

  ghost predicate Explained(replies: seq<Cmd>, a: nat) {
    exists k: nat :: AckCovers(replies, k, a)
  }

  /** An acknowledgement names a chunk that is in RAM. */
  ghost predicate AcksHold(w: World, file: seq<u8>, dest: nat) {
    forall k :: 0 <= k < |w.replies| && w.replies[k].cmdAck == ACK ==>
      NamesSome(file, dest, w.replies[k]) && Written(w.ram, file, dest, w.replies[k])
  }

  /** A byte that changed was covered by an acknowledged write. */
  ghost predicate ChangesExplained(ram0: seq<u8>, w: World)
    requires |w.ram| == |ram0|
  {
    forall a :: 0 <= a < |ram0| && w.ram[a] != ram0[a] ==> Explained(w.replies, a)
  }

  /** What every run keeps. */
  ghost predicate Inv(ram0: seq<u8>, w: World, file: seq<u8>, dest: nat) {
    && Intact(ram0, w.ram, file, dest)
    && (forall k :: 0 <= k < |w.sent| ==> FileCmd(file, dest, w.sent[k]))
    && AcksHold(w, file, dest)
    && ChangesExplained(ram0, w)
  }

  /** A damaged payload never passes the CRC check. */
  lemma AcceptedIsGenuine(c: Cmd, payload: seq<u8>)
    requires CrcRaw(c.buff) == 0 && Damage(c.buff, payload) && CrcRaw(payload) == 0
    ensures payload == c.buff
  {
    var at :| WithinBurst(c.buff, payload, at);
    if payload != c.buff { BurstDetected(c.buff, payload, at); }
  }

  lemma ChunkBytes(c: Cmd, file: seq<u8>, dest: nat) returns (data: seq<u8>)
    requires FileCmd(file, dest, c)
    ensures dest <= c.addr && c.addr + c.size <= dest + |file| && CrcRaw(c.buff) == 0 && c.size <= |c.buff|
    ensures data == c.buff[..c.size] == file[c.addr - dest..c.addr - dest + c.size]
    ensures NamesSome(file, dest, c)
  {
    var i :| ChunkCmd(file, dest, c, i);
    assert NamesChunk(file, dest, c, i);
    data := c.buff[..c.size];
  }

  /** An accepted file command leaves the file's bytes in its range and changes nothing else. */
  lemma AcceptedWrites(ram: seq<u8>, c: Cmd, file: seq<u8>, dest: nat)
    requires Fits(ram, c) && FileCmd(file, dest, c) && dest + |file| <= |ram|
    ensures dest <= c.addr && c.addr + c.size <= dest + |file|
    ensures var ram' := Handled(ram, c);
      forall a :: 0 <= a < |ram| ==>
        ram'[a] == if c.addr <= a < c.addr + c.size then file[a - dest] else ram[a]
  {
    var data := ChunkBytes(c, file, dest);
    assert Handled(ram, c) == Overwrite(ram, c.addr, data);
    OverwritesWithFile(ram, c.addr, data, file, dest);
  }

  lemma OverwritesWithFile(ram: seq<u8>, addr: nat, data: seq<u8>, file: seq<u8>, dest: nat)
    requires dest <= addr && addr + |data| <= dest + |file| <= |ram|
    requires data == file[addr - dest..addr - dest + |data|]
    ensures var ram' := Overwrite(ram, addr, data);
      forall a :: 0 <= a < |ram| ==> ram'[a] == if addr <= a < addr + |data| then file[a - dest] else ram[a]
  {
    OverwriteAt(ram, addr, data);
    var ram' := Overwrite(ram, addr, data);
    forall a | 0 <= a < |ram|
      ensures ram'[a] == if addr <= a < addr + |data| then file[a - dest] else ram[a]
    {
      if addr <= a < addr + |data| { assert ram'[a] == data[a - addr]; }
    }
  }

  /** Accepting a genuine command: its chunk is written, acknowledged, and explains what changed. */
  lemma AcceptedKeepsInv(ram0: seq<u8>, w: World, c: Cmd, file: seq<u8>, dest: nat)
    requires Inv(ram0, w, file, dest) && dest + |file| <= |ram0|
    requires Fits(w.ram, c) && Accepted(c) && FileCmd(file, dest, c)
    ensures Inv(ram0, Answer(w, c), file, dest)
  {
    var w' := Answer(w, c);
    var _ := ChunkBytes(c, file, dest);
    AcceptedWrites(w.ram, c, file, dest);
    NamesKept(file, dest, c);
    forall k | 0 <= k < |w'.replies| && w'.replies[k].cmdAck == ACK
      ensures NamesSome(file, dest, w'.replies[k]) && Written(w'.ram, file, dest, w'.replies[k])
    {
      if k < |w.replies| { assert w'.replies[k] == w.replies[k]; }
    }
    ExplainedFurther(ram0, w, c, file, dest);
  }

  lemma NamesKept(file: seq<u8>, dest: nat, c: Cmd)
    requires NamesSome(file, dest, c)
    ensures NamesSome(file, dest, Reply(c))
  {
    var i :| NamesChunk(file, dest, c, i);
    assert NamesChunk(file, dest, Reply(c), i);
  }

  lemma ExplainedFurther(ram0: seq<u8>, w: World, c: Cmd, file: seq<u8>, dest: nat)
    requires |w.ram| == |ram0| && ChangesExplained(ram0, w) && Fits(w.ram, c) && dest + |file| <= |ram0|
    requires Accepted(c) ==> FileCmd(file, dest, c)
    ensures ChangesExplained(ram0, Answer(w, c))
  {
    var w' := Answer(w, c);
    if Accepted(c) { AcceptedWrites(w.ram, c, file, dest); }
    forall a | 0 <= a < |ram0| && w'.ram[a] != ram0[a] ensures Explained(w'.replies, a) {
      if Accepted(c) && c.addr <= a < c.addr + c.size {
        assert AckCovers(w'.replies, |w.replies|, a);
      } else {
        var k: nat :| AckCovers(w.replies, k, a);
        assert AckCovers(w'.replies, k, a);
      }
    }
  }

  lemma StepKeepsInv(ram0: seq<u8>, w: World, e: Event, file: seq<u8>, dest: nat)
    requires Inv(ram0, w, file, dest) && Possible(w, e, file, dest) && dest + |file| <= |ram0|
    ensures Inv(ram0, Next(w, e), file, dest)
  {
    match e {
      case Send(c) =>
      case Deliver(k, payload) =>
        var c := w.sent[k].(buff := payload);
        if Fits(w.ram, c) {
          if Accepted(c) {
            var _ := ChunkBytes(w.sent[k], file, dest);
            AcceptedIsGenuine(w.sent[k], payload);
            assert c == w.sent[k];
            AcceptedKeepsInv(ram0, w, c, file, dest);
          } else {
            ExplainedFurther(ram0, w, c, file, dest);
          }
        }
    }
  }

  /** At every point of every run, whatever is lost, duplicated, reordered or damaged: each byte of the
      destination is its initial value or the file's byte, nothing else changed, and a chunk once
      acknowledged is in RAM. */
  lemma {:induction false} EveryRunIntact(w0: World, es: seq<Event>, file: seq<u8>, dest: nat)
    requires w0.sent == [] && w0.replies == [] && dest + |file| <= |w0.ram|
    requires Run(w0, es, file, dest)
    ensures Inv(w0.ram, After(w0, es), file, dest)
  {
    if es != [] {
      var k := |es| - 1;
      assert Run(w0, es[..k], file, dest) by {
        forall i | 0 <= i < k ensures Possible(After(w0, es[..k][..i]), es[..k][i], file, dest) {
          assert es[..k][..i] == es[..i] && es[..k][i] == es[i];
        }
      }
      EveryRunIntact(w0, es[..k], file, dest);
      StepKeepsInv(w0.ram, After(w0, es[..k]), es[k], file, dest);
    }
  }

  // ---------- When RAM holds the file ----------

  function ChunkCount(file: seq<u8>): nat {
    (|file| + CHUNK - 1) / CHUNK
  }

  /** Reply k acknowledges chunk i: what a client sees by comparing the reply's address. */
  predicate AckFor(replies: seq<Cmd>, dest: nat, k: nat, i: nat) {
    k < |replies| && replies[k].cmdAck == ACK && replies[k].addr == dest + i * CHUNK
  }

  ghost predicate Acknowledged(replies: seq<Cmd>, dest: nat, i: nat) {
    exists k: nat :: AckFor(replies, dest, k, i)
  }

  /** The bytes of chunk i are in RAM. */
  ghost predicate ChunkThere(ram: seq<u8>, file: seq<u8>, dest: nat, i: nat)
    requires dest + |file| <= |ram|
  {
    forall j :: 0 <= j < |file| && j / CHUNK == i ==> ram[dest + j] == file[j]
  }

  ghost predicate Uploaded(ram: seq<u8>, file: seq<u8>, dest: nat) {
    dest + |file| <= |ram| && ram[dest..dest + |file|] == file
  }

  /** Every chunk was acknowledged, or was in RAM before the upload. */
  ghost predicate EveryChunk(ram0: seq<u8>, replies: seq<Cmd>, file: seq<u8>, dest: nat)
    requires dest + |file| <= |ram0|
  {
    forall i :: 0 <= i < ChunkCount(file) ==> Acknowledged(replies, dest, i) || ChunkThere(ram0, file, dest, i)
  }

  /** An acknowledged chunk is in RAM. */
  lemma AcknowledgedIsThere(ram0: seq<u8>, w: World, file: seq<u8>, dest: nat, i: nat)
    requires Inv(ram0, w, file, dest) && dest + |file| <= |ram0| && Acknowledged(w.replies, dest, i)
    ensures ChunkThere(w.ram, file, dest, i)
  {
    var k: nat :| AckFor(w.replies, dest, k, i);
    var c := w.replies[k];
    var i' :| NamesChunk(file, dest, c, i');
    assert i' == i && Written(w.ram, file, dest, c);
    forall j | 0 <= j < |file| && j / CHUNK == i ensures w.ram[dest + j] == file[j] {
      assert c.addr <= dest + j < c.addr + c.size;
    }
  }

  /** A chunk nobody acknowledged is as it was. */
  lemma UnacknowledgedIsUnchanged(ram0: seq<u8>, w: World, file: seq<u8>, dest: nat, j: nat)
    requires Inv(ram0, w, file, dest) && dest + |file| <= |ram0| && j < |file|
    requires !Acknowledged(w.replies, dest, j / CHUNK)
    ensures w.ram[dest + j] == ram0[dest + j]
  {
    if w.ram[dest + j] != ram0[dest + j] {
      assert Explained(w.replies, dest + j);
      var k: nat :| AckCovers(w.replies, k, dest + j);
      var i :| NamesChunk(file, dest, w.replies[k], i);
      assert i == j / CHUNK;
      assert AckFor(w.replies, dest, k, i);
    }
  }

  /** RAM holds the file exactly when each chunk was acknowledged or was there from the start. */
  lemma UploadedIff(ram0: seq<u8>, w: World, file: seq<u8>, dest: nat)
    requires Inv(ram0, w, file, dest) && dest + |file| <= |ram0|
    ensures Uploaded(w.ram, file, dest) <==> EveryChunk(ram0, w.replies, file, dest)
  {
    if EveryChunk(ram0, w.replies, file, dest) {
      forall j | 0 <= j < |file| ensures w.ram[dest + j] == file[j] {
        var i := j / CHUNK;
        if Acknowledged(w.replies, dest, i) {
          AcknowledgedIsThere(ram0, w, file, dest, i);
        } else {
          assert ChunkThere(ram0, file, dest, i);
        }
      }
      assert w.ram[dest..dest + |file|] == file;
    }
    if Uploaded(w.ram, file, dest) {
      UploadedMeans(ram0, w, file, dest);
    }
  }

  lemma UploadedMeans(ram0: seq<u8>, w: World, file: seq<u8>, dest: nat)
    requires Inv(ram0, w, file, dest) && dest + |file| <= |ram0| && Uploaded(w.ram, file, dest)
    ensures EveryChunk(ram0, w.replies, file, dest)
  {
    forall i | 0 <= i < ChunkCount(file) && !Acknowledged(w.replies, dest, i)
      ensures ChunkThere(ram0, file, dest, i)
    {
      forall j | 0 <= j < |file| && j / CHUNK == i ensures ram0[dest + j] == file[j] {
        UnacknowledgedIsUnchanged(ram0, w, file, dest, j);
        assert w.ram[dest..dest + |file|][j] == w.ram[dest + j];
      }
    }
  }

  /** So it is at every point of every run. */
  lemma EveryRunUploadedIff(w0: World, es: seq<Event>, file: seq<u8>, dest: nat)
    requires w0.sent == [] && w0.replies == [] && dest + |file| <= |w0.ram|
    requires Run(w0, es, file, dest)
    ensures Uploaded(After(w0, es).ram, file, dest) <==> EveryChunk(w0.ram, After(w0, es).replies, file, dest)
  {
    EveryRunIntact(w0, es, file, dest);
    UploadedIff(w0.ram, After(w0, es), file, dest);
  }

  // ---------- Client ----------

  /** Filling the command for chunk i: only the file's bytes and the CRC are overwritten, the rest is left over. */
  method FillCommand(cmd: Cmd, file: seq<u8>, dest: nat, i: nat, left: nat) returns (c: Cmd)
    requires 0 < left == |file| - i * CHUNK && |cmd.buff| == CHUNK + 4
    ensures ChunkCmd(file, dest, c.(cmdAck := REQ), i) && |c.buff| == CHUNK + 4
  {
    var size := if left < CHUNK then left else CHUNK;
    var data := file[i * CHUNK..i * CHUNK + size];
    var body := data + cmd.buff[size..CHUNK];
    var crc := Crc32(body);
    SelfCheck(body);
    c := Cmd(cmd.cmdAck, RAMWRITE, HEADER + CHUNK + 4, dest + i * CHUNK, size, body + BigEndian(crc));
    assert c.buff[..size] == data;
  }

  /** What one recv yields: no datagram (its size is then zero or negative), or one of the replies so far. */
  datatype Recv = Nothing(size: int) | Datagram(reply: nat)

  datatype Delivery = Delivery(index: nat, damage: seq<u8> -> seq<u8>)

  /** How one call of udpcli_sendandwait ended: its result, and the reply it accepted. */
  datatype Outcome = Outcome(ret: int, accepted: Option<nat>)

  /** Between a transmission and the recv that follows it, any earlier datagrams may reach the server. */
  type Schedule = nat -> seq<Delivery>

  ghost predicate BurstsOnly(deliver: Schedule) {
    forall n, k :: 0 <= k < |deliver(n)| ==> Harmless(deliver(n)[k].damage)
  }

  ghost predicate Harmless(damage: seq<u8> -> seq<u8>) {
    forall b: seq<u8> :: Damage(b, damage(b))
  }

  /** Nothing ever reaches the server. */
  ghost predicate Cut(deliver: Schedule) {
    forall n :: deliver(n) == []
  }

  /** One datagram reaches the server; later ones follow. */
  ghost function Arrival(w: World, d: Delivery): World {
    if d.index < |w.sent| then Next(w, Deliver(d.index, d.damage(w.sent[d.index].buff))) else w
  }

  ghost function Arrivals(w: World, ds: seq<Delivery>, k: nat): World
    requires k <= |ds|
  {
    if k == 0 then w else Arrival(Arrivals(w, ds, k - 1), ds[k - 1])
  }

  /** The server's state after transmission n of `cmd` and what the channel delivers then. */
  ghost function Transmitted(w: World, cmd: Cmd, deliver: Schedule): World {
    Arrivals(w.(sent := w.sent + [cmd]), deliver(|w.sent|), |deliver(|w.sent|)|)
  }

  /** The test of udpcli_sendandwait on what it received. */
  predicate Satisfies(r: Recv, replies: seq<Cmd>, cmdType: nat) {
    r.Datagram? && r.reply < |replies| && replies[r.reply].cmdAck == ACK && replies[r.reply].cmdType == cmdType
  }

  /** The state after j transmissions of one command. */
  ghost function Tries(w: World, cmd: Cmd, deliver: Schedule, j: nat): World {
    if j == 0 then w else Transmitted(Tries(w, cmd, deliver, j - 1), cmd, deliver)
  }

  lemma {:induction false} ArrivalsKeep(w: World, ds: seq<Delivery>, k: nat)
    requires k <= |ds|
    ensures Arrivals(w, ds, k).sent == w.sent && w.replies <= Arrivals(w, ds, k).replies
  {
    if k > 0 { ArrivalsKeep(w, ds, k - 1); }
  }

  /** j transmissions of a command send it j times; replies are only added, and none if nothing arrives. */
  lemma {:induction false} TriesSent(w: World, cmd: Cmd, deliver: Schedule, j: nat)
    ensures var w' := Tries(w, cmd, deliver, j);
      && |w'.sent| == |w.sent| + j && w.sent <= w'.sent && w.replies <= w'.replies
      && (forall k :: |w.sent| <= k < |w'.sent| ==> w'.sent[k] == cmd)
      && (Cut(deliver) ==> w'.ram == w.ram && w'.replies == w.replies)
  {
    if j > 0 {
      TriesSent(w, cmd, deliver, j - 1);
      var v := Tries(w, cmd, deliver, j - 1);
      ArrivalsKeep(v.(sent := v.sent + [cmd]), deliver(|v.sent|), |deliver(|v.sent|)|);
    }
  }

  /** What is received after the transmission that j others precede satisfies the client. */
  ghost predicate SatisfiedAt(w: World, cmd: Cmd, deliver: Schedule, answer: nat -> Recv, j: nat) {
    Satisfies(answer(|w.sent| + j), Tries(w, cmd, deliver, j + 1).replies, cmd.cmdType)
  }

  /** What recv hands over when there are n replies. */
  function Received(a: Recv, n: nat): Recv {
    match a
    case Nothing(size) => if size > 0 then Nothing(-1) else a
    case Datagram(k) => if k < n then a else Nothing(-1)
  }

  /** What a call returns after a last recv that does not satisfy it. */
  function LastCode(a: Recv): int {
    if a.Nothing? && a.size <= 0 then a.size else -1
  }

  ghost predicate NoneBefore(w: World, cmd: Cmd, deliver: Schedule, answer: nat -> Recv, j: nat) {
    forall i: nat :: i < j ==> !SatisfiedAt(w, cmd, deliver, answer, i)
  }

  /** One more transmission: it satisfies the client and ends the call, or leaves one try less. */
  lemma AfterTry(w: World, cmd: Cmd, deliver: Schedule, answer: nat -> Recv, j: nat,
                 w1: World, w2: World, good: bool, code: int, k: nat)
    requires j < 4 && NoneBefore(w, cmd, deliver, answer, j)
    requires w1 == Tries(w, cmd, deliver, j) && |w1.sent| == |w.sent| + j && w2 == Transmitted(w1, cmd, deliver)
    requires good <==> Satisfies(answer(|w1.sent|), w2.replies, cmd.cmdType)
    requires if good then answer(|w1.sent|) == Datagram(k) else code == LastCode(answer(|w1.sent|))
    ensures w2 == Tries(w, cmd, deliver, j + 1)
    ensures good ==> EndsAt(w, cmd, deliver, answer, Outcome(0, Some(k)), j)
    ensures !good ==> NoneBefore(w, cmd, deliver, answer, j + 1)
    ensures !good && j == 3 ==> EndsAt(w, cmd, deliver, answer, Outcome(code, None), j)
  {
    assert Tries(w, cmd, deliver, j + 1) == Transmitted(Tries(w, cmd, deliver, j), cmd, deliver);
    assert good <==> SatisfiedAt(w, cmd, deliver, answer, j);
  }

  /** A call that ends so accepted something exactly when one of four answers would satisfy it. */
  lemma AcceptedIff(w: World, cmd: Cmd, deliver: Schedule, answer: nat -> Recv, out: Outcome, j: nat)
    requires EndsAt(w, cmd, deliver, answer, out, j)
    ensures out.accepted.Some? <==> exists i: nat :: i < 4 && SatisfiedAt(w, cmd, deliver, answer, i)
  {
    if i: nat :| i < 4 && SatisfiedAt(w, cmd, deliver, answer, i) { assert i >= j; }
  }

  /** How a call of udpcli_sendandwait ends: with the first satisfying answer, or with the fourth transmission. */
  ghost predicate EndsAt(w: World, cmd: Cmd, deliver: Schedule, answer: nat -> Recv, out: Outcome, j: nat) {
    && j < 4 && NoneBefore(w, cmd, deliver, answer, j)
    && if SatisfiedAt(w, cmd, deliver, answer, j) then out == Outcome(0, Some(answer(|w.sent| + j).reply))
       else j == 3 && out == Outcome(LastCode(answer(|w.sent| + j)), None)
  }

  /** A zero result means an accepted reply, or that the fourth recv returned an empty datagram. */
  predicate OutcomeMeans(out: Outcome, replies: seq<Cmd>) {
    match out.accepted
    case Some(k) => out.ret == 0 && k < |replies| && replies[k].cmdAck == ACK
    case None => out.ret <= 0
  }

  /** The channel delivers the first transmission only, and every recv yields the reply to it. */
  ghost predicate Replays(deliver: Schedule, answer: nat -> Recv) {
    && |deliver(0)| == 1 && deliver(0)[0].index == 0 && (forall b: seq<u8> :: deliver(0)[0].damage(b) == b)
    && (forall n: nat :: n > 0 ==> deliver(n) == []) && forall n :: answer(n) == Datagram(0)
  }

  /** One reply only: an acknowledgement of chunk 0. */
  predicate OneAck(replies: seq<Cmd>, dest: nat) {
    |replies| == 1 && replies[0].cmdAck == ACK && replies[0].cmdType == RAMWRITE && replies[0].addr == dest
  }

  /** Under such a channel each command is accepted at once, on the strength of the first one's acknowledgement. */
  lemma ReplaySatisfies(w: World, c: Cmd, file: seq<u8>, dest: nat, i: nat, deliver: Schedule, answer: nat -> Recv)
    requires Replays(deliver, answer) && ChunkCmd(file, dest, c, i) && dest + |file| <= |w.ram|
    requires if i == 0 then w.sent == [] && w.replies == [] else w.sent != [] && OneAck(w.replies, dest)
    ensures var w' := Transmitted(w, c, deliver);
      OneAck(w'.replies, dest) && Satisfies(answer(|w.sent|), w'.replies, c.cmdType)
  {
    var v := w.(sent := w.sent + [c]);
    if i == 0 {
      assert c.(buff := c.buff) == c && Fits(v.ram, c);
      assert Arrivals(v, deliver(0), 0) == v;
      assert Arrivals(v, deliver(0), 1) == Arrival(v, deliver(0)[0]) == Answer(v, c);
    }
  }

  /** What the client makes of what it received. */
  datatype Judgement = Silence | NeedsRetransmission | WithoutAck | Good

  /** The three tests of udpcli_sendandwait; `code` is what it returns if the last attempt fails one of them. */
  method Judge(r: Recv, replies: seq<Cmd>, cmdType: nat) returns (why: Judgement, code: int)
    requires r.Datagram? ==> r.reply < |replies|
    ensures why.Good? <==> Satisfies(r, replies, cmdType)
    ensures why.Silence? <==> r.Nothing?
    ensures forall c :: r.Datagram? && replies[r.reply] == Reply(c) && c.cmdType == cmdType ==>
      why == if CrcRaw(c.buff) == 0 then Good else NeedsRetransmission
    ensures !why.Good? ==> code == if r.Nothing? then r.size else -1
  {
    match r {
      case Nothing(size) => return Silence, size;
      case Datagram(k) =>
        var ack := replies[k];
        if ack.cmdAck == RETRY && ack.cmdType == cmdType { return NeedsRetransmission, -1; }
        if ack.cmdAck != ACK || ack.cmdType != cmdType { return WithoutAck, -1; }
        return Good, 0;
    }
  }

  class Session {
    const ram: array<u8>
    const deliver: Schedule
    const answer: nat -> Recv
    var sent: seq<Cmd>
    var replies: seq<Cmd>

    ghost function Now(): World
      reads this, ram
    {
      World(ram[..], sent, replies)
    }

    constructor (ram: array<u8>, deliver: Schedule, answer: nat -> Recv)
      ensures this.ram == ram && this.deliver == deliver && this.answer == answer
      ensures Now() == World(ram[..], [], [])
    {
      this.ram := ram;
      this.deliver := deliver;
      this.answer := answer;
      sent, replies := [], [];
    }

    /** One datagram reaches the server, which answers it. */
    method Arrive(d: Delivery, ghost ram0: seq<u8>, ghost file: seq<u8>, ghost dest: nat)
      requires Inv(ram0, Now(), file, dest) && dest + |file| <= |ram0| && Harmless(d.damage)
      modifies this, ram
      ensures Inv(ram0, Now(), file, dest) && Now() == Arrival(old(Now()), d)
      ensures sent == old(sent) && old(replies) <= replies
    {
      if d.index < |sent| {
        var c := sent[d.index].(buff := d.damage(sent[d.index].buff));
        ghost var e := Deliver(d.index, c.buff);
        assert Possible(Now(), e, file, dest);
        ghost var data := ChunkBytes(sent[d.index], file, dest);
        StepKeepsInv(ram0, Now(), e, file, dest);
        assert Now().ram == ram[..];
        ghost var next := Next(Now(), e);
        var reply, _ := UdpcliRecv(ram, c);
        replies := replies + [reply];
        assert Now() == next;
      }
    }

    /** send, whatever the channel does meanwhile, and recv. */
    method Exchange(cmd: Cmd, ghost ram0: seq<u8>, ghost file: seq<u8>, ghost dest: nat) returns (r: Recv)
      requires Inv(ram0, Now(), file, dest) && dest + |file| <= |ram0| && BurstsOnly(deliver)
      requires FileCmd(file, dest, cmd)
      modifies this, ram
      ensures Inv(ram0, Now(), file, dest) && Now() == Transmitted(old(Now()), cmd, deliver)
      ensures sent == old(sent) + [cmd] && old(replies) <= replies
      ensures r == Received(answer(|old(sent)|), |replies|)
    {
      StepKeepsInv(ram0, Now(), Send(cmd), file, dest);
      var n := |sent|;
      sent := sent + [cmd];
      ArriveAll(deliver(n), ram0, file, dest);
      r := answer(n);
      match r {
        case Nothing(size) => if size > 0 { r := Nothing(-1); }
        case Datagram(k) => if k >= |replies| { r := Nothing(-1); }
      }
    }

    /** Several datagrams reach the server, one after the other. */
    method ArriveAll(ds: seq<Delivery>, ghost ram0: seq<u8>, ghost file: seq<u8>, ghost dest: nat)
      requires Inv(ram0, Now(), file, dest) && dest + |file| <= |ram0|
      requires forall k :: 0 <= k < |ds| ==> Harmless(ds[k].damage)
      modifies this, ram
      ensures Inv(ram0, Now(), file, dest) && Now() == Arrivals(old(Now()), ds, |ds|)
      ensures sent == old(sent) && old(replies) <= replies
    {
      for k := 0 to |ds|
        invariant Inv(ram0, Now(), file, dest) && Now() == Arrivals(old(Now()), ds, k)
        invariant sent == old(sent) && old(replies) <= replies
      {
        Arrive(ds[k], ram0, file, dest);
      }
    }

    /** One attempt of udpcli_sendandwait: an exchange and the tests on what it yielded. */
    method Attempt(cmd: Cmd, ghost ram0: seq<u8>, ghost file: seq<u8>, ghost dest: nat)
      returns (good: bool, code: int, k: nat)
      requires Inv(ram0, Now(), file, dest) && dest + |file| <= |ram0| && BurstsOnly(deliver)
      requires FileCmd(file, dest, cmd)
      modifies this, ram
      ensures Inv(ram0, Now(), file, dest) && Now() == Transmitted(old(Now()), cmd, deliver)
      ensures sent == old(sent) + [cmd] && old(replies) <= replies
      ensures good <==> Satisfies(answer(|old(sent)|), replies, cmd.cmdType)
      ensures good ==> answer(|old(sent)|) == Datagram(k)
      ensures !good ==> code == LastCode(answer(|old(sent)|))
      ensures Cut(deliver) ==> replies == old(replies) && ram[..] == old(ram[..])
    {
      ghost var before := Now();
      var r := Exchange(cmd, ram0, file, dest);
      assert Cut(deliver) ==> Now() == before.(sent := before.sent + [cmd]);
      var why;
      why, code := Judge(r, replies, cmd.cmdType);
      good := why.Good?;
      k := if r.Datagram? then r.reply else 0;
    }

    /** udpcli_sendandwait: at most four transmissions, up to the first that is answered well. */
    method SendAndWait(cmd: Cmd, ghost ram0: seq<u8>, ghost file: seq<u8>, ghost dest: nat)
      returns (out: Outcome, cmd': Cmd)
      requires Inv(ram0, Now(), file, dest) && dest + |file| <= |ram0| && BurstsOnly(deliver)
      requires FileCmd(file, dest, cmd.(cmdAck := REQ))
      modifies this, ram
      ensures Inv(ram0, Now(), file, dest)
      ensures |old(sent)| < |sent| <= |old(sent)| + 4 && old(sent) <= sent && old(replies) <= replies
      ensures forall k :: |old(sent)| <= k < |sent| ==> sent[k] == cmd.(cmdAck := REQ)
      ensures cmd'.buff == cmd.buff
      ensures var w, req, j := old(Now()), cmd.(cmdAck := REQ), |sent| - |old(sent)|;
        Now() == Tries(w, req, deliver, j) && EndsAt(w, req, deliver, answer, out, j - 1)
      ensures out.accepted.Some? <==>
        exists j: nat :: j < 4 && SatisfiedAt(old(Now()), cmd.(cmdAck := REQ), deliver, answer, j)
      ensures OutcomeMeans(out, replies)
      ensures Cut(deliver) ==> replies == old(replies) && ram[..] == old(ram[..])
    {
      ghost var w, req, j := Now(), cmd.(cmdAck := REQ), 0;
      out, cmd', j := Retry(cmd, ram0, file, dest);
      TriesSent(w, req, deliver, j + 1);
      AcceptedIff(w, req, deliver, answer, out, j);
    }

    /** Its statements: the label, the three tests and the jumps back. */
    method Retry(cmd: Cmd, ghost ram0: seq<u8>, ghost file: seq<u8>, ghost dest: nat)
      returns (out: Outcome, cmd': Cmd, ghost j: nat)
      requires Inv(ram0, Now(), file, dest) && dest + |file| <= |ram0| && BurstsOnly(deliver)
      requires FileCmd(file, dest, cmd.(cmdAck := REQ))
      modifies this, ram
      ensures Inv(ram0, Now(), file, dest)
      ensures cmd'.buff == cmd.buff && OutcomeMeans(out, replies)
      ensures Now() == Tries(old(Now()), cmd.(cmdAck := REQ), deliver, j + 1)
      ensures EndsAt(old(Now()), cmd.(cmdAck := REQ), deliver, answer, out, j)
    {
      var retry := 3;
      cmd' := cmd.(cmdAck := REQ);
      ghost var w := Now();
      j := 0;
      while true
        invariant 0 <= retry <= 3 && j == 3 - retry
        invariant Inv(ram0, Now(), file, dest) && cmd' == cmd.(cmdAck := REQ)
        invariant Now() == Tries(w, cmd', deliver, j) && NoneBefore(w, cmd', deliver, answer, j)
        decreases retry
      {
        ghost var before := Now();
        TriesSent(w, cmd', deliver, j);
        var good, code, k := Attempt(cmd', ram0, file, dest);
        AfterTry(w, cmd', deliver, answer, j, before, Now(), good, code, k);
        if good {
          cmd' := replies[k].(buff := cmd'.buff);
          out := Outcome(0, Some(k));
          return;
        }
        if retry == 0 {
          out := Outcome(code, None);
          return;
        }
        retry, j := retry - 1, j + 1;
      }
    }

    /** updcli_ramwrite with an explicit destination; `scratch` is the uninitialised payload buffer. */
    method RamWrite(file: seq<u8>, dest: nat, scratch: seq<u8>) returns (log: seq<Outcome>, ghost starts: seq<nat>)
      requires sent == [] && replies == [] && BurstsOnly(deliver)
      requires dest + |file| <= ram.Length <= WORD && |scratch| == CHUNK + 4
      modifies this, ram
      ensures Inv(old(ram[..]), Now(), file, dest)
      ensures |log| == ChunkCount(file) && |sent| <= 4 * |log|
      ensures forall i :: 0 <= i < |log| ==> OutcomeMeans(log[i], replies)
      ensures Uploaded(ram[..], file, dest) <==> EveryChunk(old(ram[..]), replies, file, dest)
      ensures (forall i :: 0 <= i < |log| ==> AnsweredFor(log, replies, dest, i)) ==> Uploaded(ram[..], file, dest)
      ensures Rounds(sent, starts, file, dest, |log|)
      ensures (forall i :: 0 <= i < |log| ==> OwnRound(log, replies, sent, starts, i)) ==> Uploaded(ram[..], file, dest)
      ensures Answering(deliver, answer) && OneInFour(deliver) ==>
        Uploaded(ram[..], file, dest) && forall i :: 0 <= i < |log| ==> log[i].ret == 0
      ensures Answering(deliver, answer) && AllClean(deliver) ==> |sent| == ChunkCount(file)
      ensures Replays(deliver, answer) && file != [] ==>
        OneAck(replies, dest) && forall i :: 0 <= i < |log| ==> log[i].ret == 0
    {
      ghost var ram0 := ram[..];
      starts := [0];
      var left, i := |file|, 0;
      var cmd := Cmd(0, 0, 0, 0, 0, scratch);
      log := [];
      while left > 0
        invariant Inv(ram0, Now(), file, dest) && |cmd.buff| == CHUNK + 4 && i == |log|
        invariant if left > 0 then left == |file| - i * CHUNK else i == ChunkCount(file)
        invariant Progress(Now(), log, starts, file, dest, deliver, answer)
        decreases left
      {
        cmd := FillCommand(cmd, file, dest, i, left);
        left := left - cmd.size;
        i := i + 1;
        var out;
        out, cmd := Round(cmd, ram0, file, dest, log, starts);
        log, starts := log + [out], starts + [|sent|];
      }
      Finished(ram0, Now(), log, starts, file, dest, deliver, answer);
    }

    /** One round of the upload. */
    method Round(cmd: Cmd, ghost ram0: seq<u8>, ghost file: seq<u8>, ghost dest: nat,
                 ghost log: seq<Outcome>, ghost starts: seq<nat>) returns (out: Outcome, cmd': Cmd)
      requires Inv(ram0, Now(), file, dest) && dest + |file| <= |ram0| && BurstsOnly(deliver)
      requires ChunkCmd(file, dest, cmd.(cmdAck := REQ), |log|)
      requires Progress(Now(), log, starts, file, dest, deliver, answer)
      modifies this, ram
      ensures Inv(ram0, Now(), file, dest) && cmd'.buff == cmd.buff
      ensures Progress(Now(), log + [out], starts + [|sent|], file, dest, deliver, answer)
    {
      ghost var w, req := Now(), cmd.(cmdAck := REQ);
      assert FileCmd(file, dest, req);
      out, cmd' := SendAndWait(cmd, ram0, file, dest);
      ghost var w', j := Now(), |sent| - |w.sent| - 1;
      assert w' == Tries(w, req, deliver, j + 1);
      ProgressStep(w, w', req, out, log, starts, file, dest, deliver, answer, j);
    }
  }

  // ---------- What is transmitted when ----------

  /** Round i transmits chunk i, once to four times. */
  ghost predicate RoundSends(sent: seq<Cmd>, starts: seq<nat>, file: seq<u8>, dest: nat, i: nat)
    requires i + 1 < |starts|
  {
    && starts[i] < starts[i + 1] <= starts[i] + 4 && starts[i + 1] <= |sent|
    && forall k :: starts[i] <= k < starts[i + 1] ==> ChunkCmd(file, dest, sent[k], i)
  }

  /** The n rounds make up all that was sent. */
  ghost predicate Rounds(sent: seq<Cmd>, starts: seq<nat>, file: seq<u8>, dest: nat, n: nat) {
    && |starts| == n + 1 && starts[0] == 0 && starts[n] == |sent|
    && forall i :: 0 <= i < n ==> RoundSends(sent, starts, file, dest, i)
  }

  lemma RoundsSnoc(sent: seq<Cmd>, sent': seq<Cmd>, starts: seq<nat>, file: seq<u8>, dest: nat, n: nat)
    requires Rounds(sent, starts, file, dest, n) && sent <= sent' && |sent| < |sent'| <= |sent| + 4
    requires forall k :: |sent| <= k < |sent'| ==> ChunkCmd(file, dest, sent'[k], n)
    ensures Rounds(sent', starts + [|sent'|], file, dest, n + 1)
  {
    var starts' := starts + [|sent'|];
    forall i | 0 <= i < n + 1 ensures RoundSends(sent', starts', file, dest, i) {
      if i < n { assert RoundSends(sent, starts, file, dest, i); }
    }
  }

  /** The reply accepted in round i is the server's answer to something transmitted in that round. */
  ghost predicate OwnRound(log: seq<Outcome>, replies: seq<Cmd>, sent: seq<Cmd>, starts: seq<nat>, i: nat)
    requires i < |log| && |starts| == |log| + 1
  {
    log[i].accepted.Some? && AnswersOne(log[i].accepted.value, replies, sent, starts[i], starts[i + 1])
  }

  ghost predicate AnswersOne(r: nat, replies: seq<Cmd>, sent: seq<Cmd>, lo: nat, hi: nat) {
    r < |replies| && exists k :: lo <= k < hi && k < |sent| && replies[r] == Reply(sent[k])
  }

  lemma OwnRoundsAnswered(log: seq<Outcome>, replies: seq<Cmd>, sent: seq<Cmd>, starts: seq<nat>,
                          file: seq<u8>, dest: nat)
    requires Rounds(sent, starts, file, dest, |log|)
    ensures forall i :: 0 <= i < |log| && OwnRound(log, replies, sent, starts, i) ==> AnsweredFor(log, replies, dest, i)
  {
    forall i | 0 <= i < |log| && OwnRound(log, replies, sent, starts, i) ensures AnsweredFor(log, replies, dest, i) {
      var k :| starts[i] <= k < starts[i + 1] && k < |sent| && replies[log[i].accepted.value] == Reply(sent[k]);
      assert RoundSends(sent, starts, file, dest, i);
      assert ChunkCmd(file, dest, sent[k], i);
    }
  }

  // ---------- A channel that answers ----------

  /** Each transmission reaches the server once, and its reply is what the client receives next. */
  ghost predicate Answering(deliver: Schedule, answer: nat -> Recv) {
    forall n :: |deliver(n)| == 1 && deliver(n)[0].index == n && answer(n) == Datagram(n)
  }

  /** Transmission n is not damaged. */
  ghost predicate Clean(deliver: Schedule, n: nat) {
    |deliver(n)| == 1 && forall b: seq<u8> :: deliver(n)[0].damage(b) == b
  }

  ghost predicate AllClean(deliver: Schedule) {
    forall n :: Clean(deliver, n)
  }

  /** Of any four consecutive transmissions one is not damaged. */
  ghost predicate OneInFour(deliver: Schedule) {
    forall n: nat :: Clean(deliver, n) || Clean(deliver, n + 1) || Clean(deliver, n + 2) || Clean(deliver, n + 3)
  }

  /** Reply k is the answer to transmission k. */
  ghost predicate RepliesMatch(w: World) {
    |w.replies| == |w.sent| && forall k :: 0 <= k < |w.sent| ==> w.replies[k].addr == w.sent[k].addr
  }

  /** A transmission on such a channel is answered: with an acknowledgement if it was not damaged. */
  lemma AnsweringStep(w: World, c: Cmd, file: seq<u8>, dest: nat, deliver: Schedule, answer: nat -> Recv)
    requires Answering(deliver, answer) && BurstsOnly(deliver) && RepliesMatch(w)
    requires FileCmd(file, dest, c) && dest + |file| <= |w.ram|
    ensures var w' := Transmitted(w, c, deliver);
      && RepliesMatch(w') && w'.sent == w.sent + [c] && |w'.ram| == |w.ram|
      && (Clean(deliver, |w.sent|) ==> Satisfies(answer(|w.sent|), w'.replies, c.cmdType))
  {
    var v, ds := w.(sent := w.sent + [c]), deliver(|w.sent|);
    var payload := ds[0].damage(c.buff);
    assert Harmless(ds[0].damage);
    assert Damage(c.buff, payload);
    var _ := ChunkBytes(c, file, dest);
    var c' := c.(buff := payload);
    assert Fits(v.ram, c');
    assert Arrivals(v, ds, 0) == v;
    assert Arrivals(v, ds, 1) == Arrival(v, ds[0]) == Answer(v, c');
    if Clean(deliver, |w.sent|) { assert c' == c && Accepted(c); }
  }

  lemma {:induction false} AnsweringTries(w: World, c: Cmd, file: seq<u8>, dest: nat,
                                          deliver: Schedule, answer: nat -> Recv, j: nat)
    requires Answering(deliver, answer) && BurstsOnly(deliver) && RepliesMatch(w)
    requires FileCmd(file, dest, c) && dest + |file| <= |w.ram|
    ensures var w' := Tries(w, c, deliver, j);
      RepliesMatch(w') && |w'.sent| == |w.sent| + j && |w'.ram| == |w.ram|
    ensures j > 0 ==> Tries(w, c, deliver, j).sent[|w.sent| + j - 1] == c
    ensures j > 0 && Clean(deliver, |w.sent| + j - 1) ==> SatisfiedAt(w, c, deliver, answer, j - 1)
  {
    if j > 0 {
      AnsweringTries(w, c, file, dest, deliver, answer, j - 1);
      AnsweringStep(Tries(w, c, deliver, j - 1), c, file, dest, deliver, answer);
    }
  }

  lemma CleanSatisfies(w: World, c: Cmd, file: seq<u8>, dest: nat, deliver: Schedule, answer: nat -> Recv, j: nat)
    requires Answering(deliver, answer) && BurstsOnly(deliver) && RepliesMatch(w)
    requires FileCmd(file, dest, c) && dest + |file| <= |w.ram| && Clean(deliver, |w.sent| + j)
    ensures SatisfiedAt(w, c, deliver, answer, j)
  {
    AnsweringTries(w, c, file, dest, deliver, answer, j + 1);
    assert |w.sent| + (j + 1) - 1 == |w.sent| + j && j + 1 - 1 == j;
  }

  /** If one of the next four transmissions is clean, the command is accepted. */
  lemma CleanIsAccepted(w: World, c: Cmd, file: seq<u8>, dest: nat, deliver: Schedule, answer: nat -> Recv)
    returns (j: nat)
    requires Answering(deliver, answer) && BurstsOnly(deliver) && RepliesMatch(w)
    requires FileCmd(file, dest, c) && dest + |file| <= |w.ram| && OneInFour(deliver)
    ensures j < 4 && SatisfiedAt(w, c, deliver, answer, j)
  {
    var n := |w.sent|;
    j := if Clean(deliver, n) then 0 else if Clean(deliver, n + 1) then 1 else if Clean(deliver, n + 2) then 2 else 3;
    CleanSatisfies(w, c, file, dest, deliver, answer, j);
  }

  /** What was accepted then carries the command's own address. */
  lemma AcceptedAddress(w: World, c: Cmd, file: seq<u8>, dest: nat,
                        deliver: Schedule, answer: nat -> Recv, out: Outcome, j: nat, i: nat)
    requires Answering(deliver, answer) && BurstsOnly(deliver) && RepliesMatch(w)
    requires ChunkCmd(file, dest, c, i) && dest + |file| <= |w.ram|
    requires EndsAt(w, c, deliver, answer, out, j) && out.accepted.Some?
    ensures AckFor(Tries(w, c, deliver, j + 1).replies, dest, out.accepted.value, i)
  {
    AnsweringTries(w, c, file, dest, deliver, answer, j + 1);
    assert answer(|w.sent| + j) == Datagram(|w.sent| + j);
  }

  // ---------- Round by round ----------

  /** What is so after the rounds in the log. */
  ghost predicate Progress(w: World, log: seq<Outcome>, starts: seq<nat>, file: seq<u8>, dest: nat,
                           deliver: Schedule, answer: nat -> Recv) {
    && Rounds(w.sent, starts, file, dest, |log|) && |w.sent| <= 4 * |log|
    && LogMeans(log, w.replies)
    && (Answering(deliver, answer) ==> Answered(w, log, dest, deliver))
    && (Replays(deliver, answer) ==> Replayed(w, log, dest))
  }

  ghost predicate LogMeans(log: seq<Outcome>, replies: seq<Cmd>) {
    forall i :: 0 <= i < |log| ==> OutcomeMeans(log[i], replies)
  }

  /** On an answering channel. */
  ghost predicate Answered(w: World, log: seq<Outcome>, dest: nat, deliver: Schedule) {
    && RepliesMatch(w)
    && (OneInFour(deliver) ==> forall j :: 0 <= j < |log| ==> AnsweredFor(log, w.replies, dest, j))
    && (AllClean(deliver) ==> |w.sent| == |log|)
  }

  /** On a channel that replays the first acknowledgement. */
  ghost predicate Replayed(w: World, log: seq<Outcome>, dest: nat) {
    && (if log == [] then w.sent == [] && w.replies == [] else w.sent != [] && OneAck(w.replies, dest))
    && forall j :: 0 <= j < |log| ==> log[j].ret == 0
  }

  /** What the last round leaves. */
  lemma Finished(ram0: seq<u8>, w: World, log: seq<Outcome>, starts: seq<nat>, file: seq<u8>, dest: nat,
                 deliver: Schedule, answer: nat -> Recv)
    requires Inv(ram0, w, file, dest) && dest + |file| <= |ram0| && |log| == ChunkCount(file)
    requires Progress(w, log, starts, file, dest, deliver, answer)
    ensures Uploaded(w.ram, file, dest) <==> EveryChunk(ram0, w.replies, file, dest)
    ensures (forall i :: 0 <= i < |log| ==> AnsweredFor(log, w.replies, dest, i)) ==> Uploaded(w.ram, file, dest)
    ensures (forall i :: 0 <= i < |log| ==> OwnRound(log, w.replies, w.sent, starts, i)) ==> Uploaded(w.ram, file, dest)
    ensures Answering(deliver, answer) && OneInFour(deliver) ==>
      Uploaded(w.ram, file, dest) && forall i :: 0 <= i < |log| ==> log[i].ret == 0
  {
    UploadedIff(ram0, w, file, dest);
    AllAnswered(ram0, log, w.replies, file, dest);
    OwnRoundsAnswered(log, w.replies, w.sent, starts, file, dest);
    if Answering(deliver, answer) && OneInFour(deliver) {
      forall i | 0 <= i < |log| ensures log[i].ret == 0 {
        assert AnsweredFor(log, w.replies, dest, i);
        assert OutcomeMeans(log[i], w.replies);
      }
    }
  }

  lemma ProgressStep(w: World, w': World, c: Cmd, out: Outcome, log: seq<Outcome>, starts: seq<nat>,
                     file: seq<u8>, dest: nat, deliver: Schedule, answer: nat -> Recv, j: nat)
    requires Progress(w, log, starts, file, dest, deliver, answer) && BurstsOnly(deliver)
    requires ChunkCmd(file, dest, c, |log|) && dest + |file| <= |w.ram|
    requires w' == Tries(w, c, deliver, j + 1) && OutcomeMeans(out, w'.replies)
    requires EndsAt(w, c, deliver, answer, out, j)
    ensures Progress(w', log + [out], starts + [|w'.sent|], file, dest, deliver, answer)
  {
    TriesSent(w, c, deliver, j + 1);
    RoundsSnoc(w.sent, w'.sent, starts, file, dest, |log|);
    LogSnoc(log, w.replies, out, w'.replies);
    if Answering(deliver, answer) { AnsweredStep(w, w', c, out, log, file, dest, deliver, answer, j); }
    if Replays(deliver, answer) { ReplayedStep(w, w', c, out, log, file, dest, deliver, answer, j); }
  }

  lemma LogSnoc(log: seq<Outcome>, replies: seq<Cmd>, out: Outcome, replies': seq<Cmd>)
    requires LogMeans(log, replies) && replies <= replies' && OutcomeMeans(out, replies')
    ensures LogMeans(log + [out], replies')
  {
  }

  lemma AnsweredStep(w: World, w': World, c: Cmd, out: Outcome, log: seq<Outcome>,
                     file: seq<u8>, dest: nat, deliver: Schedule, answer: nat -> Recv, j: nat)
    requires Answering(deliver, answer) && BurstsOnly(deliver) && Answered(w, log, dest, deliver)
    requires ChunkCmd(file, dest, c, |log|) && dest + |file| <= |w.ram| && w.replies <= w'.replies
    requires w' == Tries(w, c, deliver, j + 1) && EndsAt(w, c, deliver, answer, out, j)
    ensures Answered(w', log + [out], dest, deliver)
  {
    AnsweringTries(w, c, file, dest, deliver, answer, j + 1);
    if OneInFour(deliver) { AnsweredLonger(w, w', c, out, log, file, dest, deliver, answer, j); }
    if AllClean(deliver) { CleanAtOnce(w, c, file, dest, deliver, answer, out, j); }
  }

  lemma CleanAtOnce(w: World, c: Cmd, file: seq<u8>, dest: nat,
                    deliver: Schedule, answer: nat -> Recv, out: Outcome, j: nat)
    requires Answering(deliver, answer) && BurstsOnly(deliver) && RepliesMatch(w) && AllClean(deliver)
    requires FileCmd(file, dest, c) && dest + |file| <= |w.ram| && EndsAt(w, c, deliver, answer, out, j)
    ensures j == 0
  {
    assert Clean(deliver, |w.sent| + 0);
    CleanSatisfies(w, c, file, dest, deliver, answer, 0);
  }

  lemma AnsweredLonger(w: World, w': World, c: Cmd, out: Outcome, log: seq<Outcome>,
                       file: seq<u8>, dest: nat, deliver: Schedule, answer: nat -> Recv, j: nat)
    requires Answering(deliver, answer) && BurstsOnly(deliver) && OneInFour(deliver)
    requires Answered(w, log, dest, deliver)
    requires ChunkCmd(file, dest, c, |log|) && dest + |file| <= |w.ram| && w.replies <= w'.replies
    requires w' == Tries(w, c, deliver, j + 1) && EndsAt(w, c, deliver, answer, out, j)
    ensures forall j :: 0 <= j < |log| + 1 ==> AnsweredFor(log + [out], w'.replies, dest, j)
  {
    var _ := CleanIsAccepted(w, c, file, dest, deliver, answer);
    AcceptedIff(w, c, deliver, answer, out, j);
    AcceptedAddress(w, c, file, dest, deliver, answer, out, j, |log|);
    AnsweredSnoc(log, w.replies, out, w'.replies, dest);
  }

  lemma AnsweredSnoc(log: seq<Outcome>, replies: seq<Cmd>, out: Outcome, replies': seq<Cmd>, dest: nat)
    requires forall j :: 0 <= j < |log| ==> AnsweredFor(log, replies, dest, j)
    requires replies <= replies' && out.accepted.Some? && AckFor(replies', dest, out.accepted.value, |log|)
    ensures forall j :: 0 <= j < |log| + 1 ==> AnsweredFor(log + [out], replies', dest, j)
  {
    forall j | 0 <= j < |log| + 1 ensures AnsweredFor(log + [out], replies', dest, j) {
      if j < |log| { assert AnsweredFor(log, replies, dest, j); }
    }
  }

  lemma ReplayedStep(w: World, w': World, c: Cmd, out: Outcome, log: seq<Outcome>,
                     file: seq<u8>, dest: nat, deliver: Schedule, answer: nat -> Recv, j: nat)
    requires Replays(deliver, answer) && Replayed(w, log, dest)
    requires ChunkCmd(file, dest, c, |log|) && dest + |file| <= |w.ram|
    requires w' == Tries(w, c, deliver, j + 1) && EndsAt(w, c, deliver, answer, out, j)
    ensures Replayed(w', log + [out], dest)
  {
    ReplaySatisfies(w, c, file, dest, |log|, deliver, answer);
    assert Tries(w, c, deliver, 1) == Transmitted(Tries(w, c, deliver, 0), c, deliver) == Transmitted(w, c, deliver);
    assert SatisfiedAt(w, c, deliver, answer, 0);
    assert j == 0;
    TriesSent(w, c, deliver, 1);
  }

  /** The reply accepted for chunk i carries chunk i's address. */
  predicate AnsweredFor(log: seq<Outcome>, replies: seq<Cmd>, dest: nat, i: nat)
    requires i < |log|
  {
    log[i].accepted.Some? && AckFor(replies, dest, log[i].accepted.value, i)
  }

  /** A client that compared addresses would know. */
  lemma AllAnswered(ram0: seq<u8>, log: seq<Outcome>, replies: seq<Cmd>, file: seq<u8>, dest: nat)
    requires |log| == ChunkCount(file) && dest + |file| <= |ram0|
    ensures (forall i :: 0 <= i < |log| ==> AnsweredFor(log, replies, dest, i)) ==>
      EveryChunk(ram0, replies, file, dest)
  {
    if forall i :: 0 <= i < |log| ==> AnsweredFor(log, replies, dest, i) {
      forall i | 0 <= i < ChunkCount(file) ensures Acknowledged(replies, dest, i) {
        assert AnsweredFor(log, replies, dest, i);
      }
    }
  }

  // ---------- Uploads that report success ----------

  /** Where nothing is lost or damaged, each chunk is sent once, every send returns 0, and RAM has the file in
      its place and is otherwise as it was. */
  method PerfectUpload(ram: array<u8>, file: seq<u8>, dest: nat, scratch: seq<u8>)
    returns (log: seq<Outcome>, transmissions: nat)
    requires dest + |file| <= ram.Length <= WORD && |scratch| == CHUNK + 4
    modifies ram
    ensures |log| == ChunkCount(file) == transmissions && forall i :: 0 <= i < |log| ==> log[i].ret == 0
    ensures ram[..] == Overwrite(old(ram[..]), dest, file)
  {
    var deliver: Schedule, answer := (n: nat) => [Delivery(n, (b: seq<u8>) => b)], (n: nat) => Datagram(n);
    NoDamage(deliver, answer);
    var session := new Session(ram, deliver, answer);
    ghost var starts;
    log, starts := session.RamWrite(file, dest, scratch);
    transmissions := |session.sent|;
    IntactAndUploaded(old(ram[..]), ram[..], file, dest);
  }

  lemma NoDamage(deliver: Schedule, answer: nat -> Recv)
    requires forall n :: |deliver(n)| == 1 && deliver(n)[0].index == n && answer(n) == Datagram(n)
    requires forall n: nat, b: seq<u8> :: deliver(n)[0].damage(b) == b
    ensures BurstsOnly(deliver) && Answering(deliver, answer) && AllClean(deliver) && OneInFour(deliver)
  {
    forall n: nat ensures Harmless(deliver(n)[0].damage) {
      forall b: seq<u8> ensures Damage(b, deliver(n)[0].damage(b)) { assert WithinBurst(b, b, 0); }
    }
    forall n: nat ensures Clean(deliver, n) { }
  }

  lemma IntactAndUploaded(ram0: seq<u8>, ram: seq<u8>, file: seq<u8>, dest: nat)
    requires Intact(ram0, ram, file, dest) && Uploaded(ram, file, dest)
    ensures ram == Overwrite(ram0, dest, file)
  {
    OverwriteAt(ram0, dest, file);
    var want := Overwrite(ram0, dest, file);
    forall a | 0 <= a < |ram| ensures ram[a] == want[a] {
      if dest <= a < dest + |file| { assert ram[dest..dest + |file|][a - dest] == ram[a]; }
    }
  }

  lemma IdentityHarmless()
    ensures Harmless((b: seq<u8>) => b)
  {
    forall b: seq<u8> ensures Damage(b, b) { assert WithinBurst(b, b, 0); }
  }

  /** Only the first chunk arrives and its acknowledgement is received again and again: every send returns 0,
      and the file is in RAM exactly when its later chunks were there before. */
  method StaleAckIsAccepted(ram: array<u8>, file: seq<u8>, dest: nat, scratch: seq<u8>) returns (log: seq<Outcome>)
    requires file != [] && dest + |file| <= ram.Length <= WORD && |scratch| == CHUNK + 4
    modifies ram
    ensures |log| == ChunkCount(file) && forall i :: 0 <= i < |log| ==> log[i].ret == 0
    ensures Uploaded(ram[..], file, dest) <==>
      forall i :: 0 < i < ChunkCount(file) ==> ChunkThere(old(ram[..]), file, dest, i)
  {
    IdentityHarmless();
    var first := Delivery(0, (b: seq<u8>) => b);
    var session := new Session(ram, n => if n == 0 then [first] else [], n => Datagram(0));
    ghost var starts;
    log, starts := session.RamWrite(file, dest, scratch);
    assert AckFor(session.replies, dest, 0, 0);
    assert forall i :: 0 < i ==> !Acknowledged(session.replies, dest, i);
  }

  /** Nothing arrives and the fourth recv returns an empty datagram: the send returns 0, and RAM is as it was. */
  method EmptyDatagramIsAccepted(ram: array<u8>, file: seq<u8>, dest: nat, scratch: seq<u8>) returns (out: Outcome)
    requires file != [] && dest + |file| <= ram.Length <= WORD && |scratch| == CHUNK + 4
    modifies ram
    ensures out == Outcome(0, None) && ram[..] == old(ram[..])
  {
    var session := new Session(ram, n => [], n => Nothing(if n == 3 then 0 else -1));
    var cmd := Cmd(0, 0, 0, 0, 0, scratch);
    cmd := FillCommand(cmd, file, dest, 0, |file|);
    out, cmd := session.SendAndWait(cmd, ram[..], file, dest);
  }
}
