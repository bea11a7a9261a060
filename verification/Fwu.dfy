/**
 The BL1 firmware update state machine: what each SMC does to the image
 descriptors, the table of loaded ids and memory. A failed assertion, a panic
 and undefined behaviour end the run (`Halt`).
 */
module Fwu {
  import opened Bytes
  import opened Options
  import Memmove

  /** Number of byte addresses; `UINTPTR_MAX + 1`. */
  const ADDRESSES: nat := 0x1_0000_0000_0000_0000
  const INVALID_ID: uint32 := 0xFFFF_FFFF

  datatype Phase = Reset | Copied | Copying | Authenticated | Executed | Interrupted

  /** Security and executability of the entry point, load region, and progress. */
  datatype Image = Image(secure: bool, executable: bool, base: uint64, maxSize: uint32,
                         phase: Phase, copied: uint32, size: uint32)

  datatype State = State(images: map<uint32, Image>, table: seq<uint32>, secExec: uint32,
                         authFlags: set<uint32>, mem: seq<byte>)

  datatype Code = Ok | EPerm | ENoMem | EAuth | Param(value: int)

  datatype Outcome = Halt | Done(code: Code, state: State)

  /**
   One SMC. `fromSecure` is the caller's world; `mapped`, `preLoadOk`,
   `accepted` and `postLoadOk` are the answers of the platform hooks and of the
   authentication module. `WorldWrite` is a store by the software outside BL1.
   */
  datatype Smc =
    | ImageCopy(id: uint32, src: uint64, blockSize: uint32, imageSize: uint32, fromSecure: bool,
                mapped: bool, preLoadOk: bool)
    | ImageAuth(id: uint32, src: uint64, imageSize: uint32, fromSecure: bool,
                mapped: bool, accepted: bool, postLoadOk: bool)
    | ImageExecute(id: uint32, fromSecure: bool)
    | ImageResume(param: int, fromSecure: bool)
    | SecImageDone(fromSecure: bool)
    | ImageReset(id: uint32, fromSecure: bool)
    | WorldWrite(addr: nat, data: seq<byte>)

  function IndexOf(t: seq<uint32>, x: uint32): (i: nat)
    ensures i <= |t| && (i < |t| <==> x in t)
    ensures i < |t| ==> t[i] == x
    ensures forall j :: 0 <= j < i ==> t[j] != x
  {
    if t == [] then 0
    else if t[0] == x then 0
    else 1 + IndexOf(t[1..], x)
  }

  /** The id is in the table afterwards, in the slot it had or in the first free one. */
  function AddId(t: seq<uint32>, id: uint32): Option<seq<uint32>> {
    if id in t then Some(t)
    else if INVALID_ID in t then Some(t[IndexOf(t, INVALID_ID) := id])
    else None
  }

  function RemoveId(t: seq<uint32>, id: uint32): Option<seq<uint32>> {
    if id in t then Some(t[IndexOf(t, id) := INVALID_ID]) else None
  }

  datatype Overlap = Clear | Overlaps | AssertFails

  /** How one table slot answers the overlap check of image `id`. */
  function SlotOverlap(images: map<uint32, Image>, slot: uint32, id: uint32): Overlap
    requires id in images && images[id].size > 0
  {
    if slot == INVALID_ID || slot == id then Clear
    else if slot !in images || images[slot].phase == Reset then AssertFails
    else if images[slot].size == 0 then Clear
    else
      var a, b := images[slot], images[id];
      var aEnd := (a.base + a.size - 1) % ADDRESSES;
      var bEnd := (b.base + b.size - 1) % ADDRESSES;
      if aEnd <= a.base then AssertFails
      else if !(aEnd < b.base || bEnd < a.base) then Overlaps
      else Clear
  }

  function CheckOverlaps(images: map<uint32, Image>, t: seq<uint32>, id: uint32): Overlap
    requires id in images && images[id].size > 0
  {
    if t == [] then Clear
    else
      var first := SlotOverlap(images, t[0], id);
      if first.Clear? then CheckOverlaps(images, t[1..], id) else first
  }

  function SetImage(s: State, id: uint32, d: Image): State {
    s.(images := s.images[id := d])
  }

  /** `!src || !len || check_uptr_overflow(src, len - 1)` is false. */
  predicate GoodRange(src: uint64, len: uint32) {
    src != 0 && len != 0 && src + (len - 1) < ADDRESSES
  }

  predicate Separate(a: nat, aLen: nat, b: nat, bLen: nat) {
    a + aLen <= b || b + bLen <= a
  }

  /** The bytes memcpy puts at `dest`: those at `src`, unless it overwrites some before it reads them. */
  function Block(mem: seq<byte>, dest: nat, src: nat, n: nat): (r: seq<byte>)
    requires src + n <= |mem|
    ensures |r| == n
    ensures dest <= src || src + n <= dest ==> r == mem[src..src + n]
  {
    if n == 0 then [] else Block(mem, dest, src, n - 1) + [mem[Memmove.Origin(dest, src, n - 1)]]
  }

  function Copy(s: State, e: Smc): Outcome
    requires e.ImageCopy? && |s.mem| == ADDRESSES
  {
    if e.id !in s.images || e.fromSecure || !s.images[e.id].secure then Done(EPerm, s)
    else
      var d := s.images[e.id];
      if d.phase != Reset && d.phase != Copying then Done(EPerm, s)
      else if !GoodRange(e.src, e.blockSize) then Done(ENoMem, s)
      else if d.phase == Copying then
        if d.copied == 0 || d.size == 0 || d.copied >= d.size then Halt
        else CopyBlock(s, e)
      else if e.imageSize == 0 || e.imageSize > d.maxSize then Done(ENoMem, s)
      else
        var sized := SetImage(s, e.id, d.(size := e.imageSize));
        match CheckOverlaps(sized.images, s.table, e.id)
        case AssertFails => Halt
        case Overlaps => Done(EPerm, SetImage(s, e.id, d.(size := 0)))
        case Clear => CopyBlock(SetImage(s, e.id, d.(size := e.imageSize, copied := 0)), e)
  }

  function CopyBlock(s: State, e: Smc): Outcome
    requires e.ImageCopy? && |s.mem| == ADDRESSES && e.id in s.images && GoodRange(e.src, e.blockSize)
    requires s.images[e.id].copied < s.images[e.id].size
  {
    if !e.mapped then Done(ENoMem, s)
    else
      match AddId(s.table, e.id)
      case None => Done(ENoMem, s)
      case Some(t) =>
        if s.images[e.id].phase == Reset && !e.preLoadOk then Done(EPerm, s.(table := t))
        else CopyListed(s.(table := t), e)
  }

  /** The block copy itself, once the image is listed. */
  function CopyListed(s: State, e: Smc): (r: Outcome)
    requires e.ImageCopy? && |s.mem| == ADDRESSES && e.id in s.images && GoodRange(e.src, e.blockSize)
    requires s.images[e.id].copied < s.images[e.id].size
    ensures r.Done? ==> r == Done(Ok, s.(images := r.state.images, mem := r.state.mem))
  {
    var d := s.images[e.id];
    var n := BlockBytes(d, e);
    var dest := d.base + d.copied;
    if dest + n > ADDRESSES then Halt
    else
      var next := if n == d.size - d.copied then Copied else Copying;
      Done(Ok, SetImage(s, e.id, d.(copied := d.copied + n, phase := next))
               .(mem := Patch(s.mem, dest, Block(s.mem, dest, e.src, n))))
  }

  /** The block is clipped to what remains of the image. */
  function BlockBytes(d: Image, e: Smc): (n: nat)
    requires e.ImageCopy? && d.copied < d.size
    ensures n <= e.blockSize && n <= d.size - d.copied
  {
    if e.blockSize > d.size - d.copied then d.size - d.copied else e.blockSize
  }

  /** Whether the caller may ask for authentication in the image's present phase. */
  predicate AuthAllowed(d: Image, fromSecure: bool) {
    if fromSecure || !d.secure then d.phase == Reset else d.phase == Copied
  }

  function Auth(s: State, e: Smc): Outcome
    requires e.ImageAuth? && |s.mem| == ADDRESSES
  {
    if e.id !in s.images || !AuthAllowed(s.images[e.id], e.fromSecure) then Done(EPerm, s)
    else
      var d := s.images[e.id];
      if d.phase == Copied then
        if d.base + d.size > ADDRESSES then Halt
        else if e.accepted then Authenticate(s, e)
        else
          var cleared := SetImage(s, e.id, d.(phase := Reset)).(mem := Patch(s.mem, d.base, Zeros(d.size)));
          Done(EAuth, Forget(cleared, e.id))
      else if !GoodRange(e.src, e.imageSize) || !e.mapped then Done(ENoMem, s)
      else
        match AddId(s.table, e.id)
        case None => Done(ENoMem, s)
        case Some(t) =>
          var sized := SetImage(s, e.id, d.(size := e.imageSize)).(table := t);
          if e.accepted then Authenticate(sized, e) else Done(EAuth, Forget(sized, e.id))
  }

  /** Remove the id; a missing id is no error here. */
  function Forget(s: State, id: uint32): State {
    match RemoveId(s.table, id)
    case None => s
    case Some(t) => s.(table := t)
  }

  function Authenticate(s: State, e: Smc): Outcome
    requires e.ImageAuth? && e.id in s.images
  {
    if !e.postLoadOk then Halt
    else Done(Ok, SetImage(s, e.id, s.images[e.id].(phase := Authenticated)).(authFlags := s.authFlags + {e.id}))
  }

  function Execute(s: State, e: Smc): Outcome
    requires e.ImageExecute?
  {
    if e.id !in s.images || e.fromSecure then Done(EPerm, s)
    else
      var d := s.images[e.id];
      if !d.secure || !d.executable || d.phase != Authenticated then Done(EPerm, s)
      else Done(Ok, SetImage(s, e.id, d.(phase := Executed)).(secExec := e.id))
  }

  function Resume(s: State, e: Smc): Outcome
    requires e.ImageResume?
  {
    if s.secExec !in s.images then if e.fromSecure then Halt else Done(EPerm, s)
    else
      var d := s.images[s.secExec];
      if !d.secure || !d.executable || d.phase != (if e.fromSecure then Executed else Interrupted) then Halt
      else
        var next := if e.fromSecure then Interrupted else Executed;
        Done(Param(e.param), SetImage(s, s.secExec, d.(phase := next)))
  }

  function ImageDone(s: State, e: Smc): Outcome
    requires e.SecImageDone?
  {
    if !e.fromSecure then Done(EPerm, s)
    else if !Running(s) then Halt
    else
      match RemoveId(s.table, s.secExec)
      case None => Halt
      case Some(t) =>
        var d := s.images[s.secExec];
        Done(Ok, SetImage(s, s.secExec, d.(phase := Reset)).(table := t, secExec := INVALID_ID))
  }

  /** A secure executable image is executing. */
  predicate Running(s: State) {
    s.secExec in s.images &&
    var d := s.images[s.secExec]; d.secure && d.executable && d.phase == Executed
  }

  function ResetImage(s: State, e: Smc): Outcome
    requires e.ImageReset? && |s.mem| == ADDRESSES
  {
    if e.id !in s.images || e.fromSecure then Done(EPerm, s)
    else
      var d := s.images[e.id];
      match d.phase
      case Reset => Done(Ok, s)
      case Executed => Halt
      case _ =>
        match RemoveId(s.table, e.id)
        case None => Done(EPerm, s)
        case Some(t) =>
          if d.copied > 0 && (!d.secure || d.base + d.copied > ADDRESSES) then Halt
          else
            var mem := if d.copied > 0 then Patch(s.mem, d.base, Zeros(d.copied)) else s.mem;
            Done(Ok, SetImage(s, e.id, d.(copied := 0, size := 0, phase := Reset))
                     .(table := t, mem := mem, authFlags := s.authFlags - {e.id}))
  }

  function Step(s: State, e: Smc): (o: Outcome)
    requires |s.mem| == ADDRESSES
    ensures o.Done? ==> |o.state.mem| == ADDRESSES
  {
    match e
    case ImageCopy(_, _, _, _, _, _, _) => Copy(s, e)
    case ImageAuth(_, _, _, _, _, _, _) => Auth(s, e)
    case ImageExecute(_, _) => Execute(s, e)
    case ImageResume(_, _) => Resume(s, e)
    case SecImageDone(_) => ImageDone(s, e)
    case ImageReset(_, _) => ResetImage(s, e)
    case WorldWrite(addr, data) =>
      if addr + |data| <= ADDRESSES then Done(Ok, s.(mem := Patch(s.mem, addr, data))) else Halt
  }
}
