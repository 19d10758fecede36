/**
 The persistent RGB store: one record word kept at a fixed flash address,
 cached in RAM, recovered at boot and rewritten in place (page erase, then
 word write) whenever an update changes it.

 Flash is modelled as the single data word plus the log of erase and write
 requests the store has issued. Requests complete synchronously here; the
 completion callback only logs and is left out. Programming a word can only
 clear bits (the new content is the old content AND the data), which is why
 the store erases the page before every write.
 */
module FlashStorage {

  import opened Codec
  import PwmControl

  /** The flash address of the record word. */
  const FLASH_ADDR_DATA: int := 0x3e000

  /** The length in bytes of one record write (the size of the cached word). */
  const WORD_LEN: nat := 4

  datatype FlashOp =
    | Erase(addr: int, pages: nat)
    | Write(addr: int, data: Word, len: nat)

  /** The content of the data word and every request issued since boot. */
  datatype Flash = Flash(word: Word, log: seq<FlashOp>)

  /** The cached record and the flash it mirrors. */
  datatype Store = Store(cache: Word, flash: Flash)

  /**
   The arguments of one update call. The new state arrives as a 32-bit value
   while the record keeps only its low byte.
   */
  datatype Request = Request(updateState: bool, newState: Word,
                             updateRgb: bool, r: Byte, g: Byte, b: Byte)

  /** Whether the platform accepts each request of an update (a rejected
      request stops the device in its fatal-error handler). */
  datatype FlashIo = FlashIo(eraseAccepted: bool, writeAccepted: bool)

  const ALL_ACCEPTED: FlashIo := FlashIo(true, true)

  datatype UpdateOutcome =
    | Continue(store: Store)
      /** The fatal-error handler stopped the device; only the flash survives. */
    | Fault(flash: Flash)

  /** Programming a word: bits can only be cleared, so the result is the old
      content AND the data. */
  function Program(w: Word, data: Word): (w': Word)
    ensures w == ERASED ==> w' == data
  {
    w & data
  }

  /** Programming never sets a bit that is clear in the old content or in the
      data. */
  lemma ProgramOnlyClearsBits(w: Word, data: Word)
    ensures Program(w, data) & w == Program(w, data)
    ensures Program(w, data) & data == Program(w, data)
  {
  }

  /** The effect of one request on the data word. A page erase at the data
      address resets it to the erased pattern; a word write there programs it.
      Requests elsewhere leave it alone. */
  function Apply(w: Word, op: FlashOp): (w': Word)
    ensures op == Erase(FLASH_ADDR_DATA, 1) ==> w' == ERASED
    ensures op.Write? && op.addr == FLASH_ADDR_DATA && op.len == WORD_LEN ==> w' == Program(w, op.data)
    ensures op.addr != FLASH_ADDR_DATA ==> w' == w
  {
    match op
    case Erase(a, n) => if a == FLASH_ADDR_DATA && n >= 1 then ERASED else w
    case Write(a, d, len) => if a == FLASH_ADDR_DATA && len == WORD_LEN then Program(w, d) else w
  }

  /** Issues one request: it is appended to the log and takes effect on the
      data word. */
  function Issue(f: Flash, op: FlashOp): (f': Flash)
    ensures f'.log == f.log + [op]
    ensures op == Erase(FLASH_ADDR_DATA, 1) ==> f'.word == ERASED
    ensures op.Write? && op.addr == FLASH_ADDR_DATA && op.len == WORD_LEN ==> f'.word == Program(f.word, op.data)
    ensures op.addr != FLASH_ADDR_DATA ==> f'.word == f.word
  {
    Flash(Apply(f.word, op), f.log + [op])
  }

  /** Erase-then-write leaves exactly the written word, whatever was there. */
  lemma EraseThenWrite(w: Word, data: Word)
    ensures Apply(Apply(w, Erase(FLASH_ADDR_DATA, 1)), Write(FLASH_ADDR_DATA, data, WORD_LEN)) == data
  {
  }

  /** A write stores its data exactly when every bit set in the data is still
      set in the word; without the erase this fails as soon as the old word
      has cleared a bit the data needs. */
  lemma WriteStoresDataExactlyWhen(w: Word, data: Word)
    ensures Apply(w, Write(FLASH_ADDR_DATA, data, WORD_LEN)) == data <==> w & data == data
  {
  }

  /** The word boot recovery caches: the erased pattern becomes all zero, so
      the cache never holds the erased pattern after boot. */
  function Recovered(stored: Word): (r: Word)
    ensures r != ERASED
    ensures stored != ERASED ==> r == stored
    ensures stored == ERASED ==> r == 0
  {
    if stored == ERASED then 0 else stored
  }

  /** What boot hands to the rest of the device. */
  datatype Boot = Boot(store: Store, characteristics: Fields, pwm: PwmControl.State)

  datatype InitOutcome = Booted(boot: Boot) | InitFault

  /**
   Boot recovery. The word at the data address is read (readAccepted says
   whether the storage driver set-up and the read were accepted); an erased
   word becomes the all-zero default; the record is decoded, handed to the
   characteristic initialisation, and pushed to the LED: colour first, then
   on when the state byte is nonzero and off otherwise. No flash request is
   issued.
   */
  function Init(stored: Word, readAccepted: bool, pwm: PwmControl.State): (o: InitOutcome)
    ensures o.InitFault? <==> !readAccepted
    ensures o.Booted? ==>
              && (stored == ERASED ==> o.boot.store.cache == 0)
              && (stored != ERASED ==> o.boot.store.cache == stored)
              && o.boot.store.flash == Flash(stored, [])
              && o.boot.characteristics == Decode(o.boot.store.cache)
    ensures o.Booted? ==>
              var f := o.boot.characteristics;
              && o.boot.pwm.color == PwmControl.Color(f.red, f.green, f.blue)
              && o.boot.pwm.enabled == (f.state != 0)
              && PwmControl.Consistent(o.boot.pwm)
              && o.boot.pwm.duty.ch0 == pwm.duty.ch0
  {
    if !readAccepted then InitFault
    else
      var cache := Recovered(stored);
      var f := Decode(cache);
      var lit := PwmControl.SetRgbColor(pwm, f.red, f.green, f.blue);
      var p := if f.state != 0 then PwmControl.On(lit) else PwmControl.Off(lit);
      Booted(Boot(Store(cache, Flash(stored, [])), f, p))
  }

  /** The request asks for a value the cache does not already hold. The state
      comparison is between the stored byte and the full 32-bit request. */
  predicate Changes(cache: Word, q: Request)
  {
    || (q.updateState && GetState(cache) as Word != q.newState)
    || (q.updateRgb && (GetRed(cache), GetGreen(cache), GetBlue(cache)) != (q.r, q.g, q.b))
  }

  /** The fields the record holds after the request: the requested ones
      replaced, the others kept. */
  function Requested(cache: Word, q: Request): Fields
  {
    var prev := Decode(cache);
    Fields(if q.updateState then GetState(q.newState) else prev.state,
           if q.updateRgb then q.r else prev.red,
           if q.updateRgb then q.g else prev.green,
           if q.updateRgb then q.b else prev.blue)
  }

  /** The state half of a merge: the stored byte is replaced when it differs
      from the requested 32-bit value. */
  function MergeState(cache: Word, q: Request): (m: (Word, bool))
    ensures m.1 <==> q.updateState && GetState(cache) as Word != q.newState
    ensures GetState(m.0) == if q.updateState then GetState(q.newState) else GetState(cache)
    ensures (GetRed(m.0), GetGreen(m.0), GetBlue(m.0)) == (GetRed(cache), GetGreen(cache), GetBlue(cache))
    ensures !m.1 ==> m.0 == cache
  {
    if q.updateState && GetState(cache) as Word != q.newState
    then (SetState(cache, q.newState), true)
    else (cache, false)
  }

  /** The colour half of a merge: all three bytes are replaced when any of
      them differs from the request. */
  function MergeRgb(w: Word, q: Request): (m: (Word, bool))
    ensures m.1 <==> q.updateRgb && (GetRed(w), GetGreen(w), GetBlue(w)) != (q.r, q.g, q.b)
    ensures GetState(m.0) == GetState(w)
    ensures (GetRed(m.0), GetGreen(m.0), GetBlue(m.0))
            == if q.updateRgb then (q.r, q.g, q.b) else (GetRed(w), GetGreen(w), GetBlue(w))
    ensures !m.1 ==> m.0 == w
  {
    if q.updateRgb && (GetRed(w) != q.r || GetGreen(w) != q.g || GetBlue(w) != q.b)
    then (SetColor(w, q.r, q.g, q.b), true)
    else (w, false)
  }

  /** Merges a request into the cached word, state first and colour second as
      the store does it, and reports whether anything changed. */
  function Merge(cache: Word, q: Request): (m: (Word, bool))
    ensures m.1 <==> Changes(cache, q)
    ensures Decode(m.0) == Requested(cache, q)
    ensures !m.1 ==> m.0 == cache
  {
    var (w, stateChanged) := MergeState(cache, q);
    var (w', rgbChanged) := MergeRgb(w, q);
    (w', stateChanged || rgbChanged)
  }

  /** The change flag means the word changes, except for a requested state
      above 255, which always counts as a change although only its low byte
      is stored. */
  lemma MergeFlagMeansNewWord(cache: Word, q: Request)
    ensures Merge(cache, q).1 <==> Merge(cache, q).0 != cache || (q.updateState && q.newState >= 0x100)
  {
  }

  /**
   One update call with the platform's answers to its requests. Nothing to
   change: no request at all. Otherwise the cache takes the merged word, then
   one page erase and one word write of the new cache word go to the data
   address, in that order; a rejected request stops the device.
   */
  function UpdateWithIo(s: Store, q: Request, io: FlashIo): (o: UpdateOutcome)
    ensures !Changes(s.cache, q) ==> o == Continue(s)
    ensures Changes(s.cache, q) && !io.eraseAccepted ==> o == Fault(s.flash)
    ensures Changes(s.cache, q) && io.eraseAccepted && !io.writeAccepted ==>
              o == Fault(Flash(ERASED, s.flash.log + [Erase(FLASH_ADDR_DATA, 1)]))
    ensures Changes(s.cache, q) && io == ALL_ACCEPTED ==>
              && o.Continue?
              && Decode(o.store.cache) == Requested(s.cache, q)
              && o.store.flash.log == s.flash.log + [Erase(FLASH_ADDR_DATA, 1),
                                                     Write(FLASH_ADDR_DATA, o.store.cache, WORD_LEN)]
              && o.store.flash.word == o.store.cache
  {
    var (w, changed) := Merge(s.cache, q);
    if !changed then Continue(s)
    else if !io.eraseAccepted then Fault(s.flash)
    else
      var erased := Issue(s.flash, Erase(FLASH_ADDR_DATA, 1));
      if !io.writeAccepted then Fault(erased)
      else Continue(Store(w, Issue(erased, Write(FLASH_ADDR_DATA, w, WORD_LEN))))
  }

  /** An update whose requests the platform accepts. */
  function Update(s: Store, q: Request): (s': Store)
    ensures Decode(s'.cache) == Requested(s.cache, q)
    ensures !Changes(s.cache, q) ==> s' == s
    ensures Changes(s.cache, q) ==>
              && s'.flash.log == s.flash.log + [Erase(FLASH_ADDR_DATA, 1),
                                                Write(FLASH_ADDR_DATA, s'.cache, WORD_LEN)]
              && s'.flash.word == s'.cache
  {
    UpdateWithIo(s, q, ALL_ACCEPTED).store
  }
}
