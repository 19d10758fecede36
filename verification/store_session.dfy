/**
 Properties of the persistent RGB store over whole sessions: boot, any
 sequence of updates, and the next boot.
 */
module StoreSession {

  import opened Codec
  import opened FlashStorage
  import PwmControl

  /** Applies the updates in order, every request accepted. */
  function UpdateAll(s: Store, qs: seq<Request>): Store
    decreases |qs|
  {
    if qs == [] then s else UpdateAll(Update(s, qs[0]), qs[1..])
  }

  /**
   The flash word is what the cache would be written as, except right after
   booting from an erased word, when the cache holds the all-zero default and
   nothing has been written yet.
   */
  predicate InSync(s: Store)
  {
    s.flash.word == s.cache || (s.flash.word == ERASED && s.cache == 0)
  }

  /** Every erase is followed by a write, and every write is preceded by an
      erase: the log is a sequence of erase-write pairs at the data address. */
  predicate EraseWritePairs(ops: seq<FlashOp>)
    decreases |ops|
  {
    if ops == [] then true
    else
      && |ops| >= 2
      && ops[0] == Erase(FLASH_ADDR_DATA, 1)
      && ops[1].Write? && ops[1].addr == FLASH_ADDR_DATA && ops[1].len == WORD_LEN
      && EraseWritePairs(ops[2..])
  }

  lemma {:induction false} PairsAppend(a: seq<FlashOp>, b: seq<FlashOp>)
    requires EraseWritePairs(a) && EraseWritePairs(b)
    ensures EraseWritePairs(a + b)
    decreases |a|
  {
    if a != [] {
      PairsAppend(a[2..], b);
      assert (a + b)[2..] == a[2..] + b;
    } else {
      assert a + b == b;
    }
  }

  lemma InitInSync(stored: Word, pwm: PwmControl.State)
    ensures Init(stored, true, pwm).Booted?
    ensures InSync(Init(stored, true, pwm).boot.store)
    ensures EraseWritePairs(Init(stored, true, pwm).boot.store.flash.log)
  {
  }

  /** A stored all-255 record is indistinguishable from an erased word and is
      recovered as the all-zero default: state off, colour (0,0,0). */
  lemma AllOnesRecordRecoveredAsDefault(pwm: PwmControl.State)
    ensures Init(ERASED, true, pwm).boot.characteristics == Fields(0, 0, 0, 0)
    ensures !Init(ERASED, true, pwm).boot.pwm.enabled
    ensures PwmControl.Dark(Init(ERASED, true, pwm).boot.pwm.duty)
  {
  }

  lemma UpdateKeepsInSync(s: Store, q: Request)
    requires InSync(s)
    ensures InSync(Update(s, q))
  {
  }

  /** Any sequence of updates keeps the flash in step with the cache, and
      extends the log by erase-write pairs only. */
  lemma {:induction false} UpdateAllInvariants(s: Store, qs: seq<Request>)
    requires InSync(s)
    ensures InSync(UpdateAll(s, qs))
    ensures exists tail :: UpdateAll(s, qs).flash.log == s.flash.log + tail && EraseWritePairs(tail)
    decreases |qs|
  {
    if qs == [] {
      assert s.flash.log == s.flash.log + [] && EraseWritePairs([]);
    } else {
      var s1 := Update(s, qs[0]);
      UpdateKeepsInSync(s, qs[0]);
      UpdateAllInvariants(s1, qs[1..]);
      var tail1: seq<FlashOp> := s1.flash.log[|s.flash.log|..];
      assert s1.flash.log == s.flash.log + tail1;
      assert EraseWritePairs(tail1) by {
        if Changes(s.cache, qs[0]) {
          assert tail1[2..] == [];
        } else {
          assert tail1 == [];
        }
      }
      var tail2 :| UpdateAll(s1, qs[1..]).flash.log == s1.flash.log + tail2 && EraseWritePairs(tail2);
      PairsAppend(tail1, tail2);
      assert UpdateAll(s, qs).flash.log == s.flash.log + (tail1 + tail2);
    }
  }

  /** A repeated identical update issues no request exactly when the stored
      state byte can equal the requested state, i.e. when no state is asked
      for or it fits in a byte. */
  lemma RepeatedUpdate(s: Store, q: Request)
    ensures var s1 := Update(s, q);
            Update(s1, q) == s1 <==> !q.updateState || q.newState < 0x100
  {
  }

  /** Two identical updates that change the record issue exactly one erase and
      one write between them. */
  lemma UpdateTwiceWritesOnce(s: Store, q: Request)
    requires Changes(s.cache, q)
    requires !q.updateState || q.newState < 0x100
    ensures var s2 := Update(Update(s, q), q);
            s2.flash.log == s.flash.log + [Erase(FLASH_ADDR_DATA, 1),
                                           Write(FLASH_ADDR_DATA, s2.cache, WORD_LEN)]
  {
  }

  /** Rebooting from the flash of an in-sync store recovers the cache, except
      that an all-255 cache comes back as the all-zero default. */
  lemma RebootRecoversCache(s: Store, pwm: PwmControl.State)
    requires InSync(s)
    ensures var b := Init(s.flash.word, true, pwm).boot;
            && (s.cache != ERASED ==> b.store.cache == s.cache)
            && (s.cache == ERASED ==> b.store.cache == 0)
            && b.characteristics == Decode(b.store.cache)
  {
  }

  /** Boot, any updates, reboot: the device comes back with the last cached
      record, unless that record is the all-255 one. */
  lemma SessionSurvivesReboot(stored: Word, pwm: PwmControl.State, qs: seq<Request>, pwm': PwmControl.State)
    ensures var s := UpdateAll(Init(stored, true, pwm).boot.store, qs);
            var b := Init(s.flash.word, true, pwm').boot;
            && (s.cache != ERASED ==> b.characteristics == Decode(s.cache))
            && (s.cache == ERASED ==> b.characteristics == Fields(0, 0, 0, 0))
  {
    InitInSync(stored, pwm);
    var s := UpdateAll(Init(stored, true, pwm).boot.store, qs);
    UpdateAllInvariants(Init(stored, true, pwm).boot.store, qs);
    RebootRecoversCache(s, pwm');
  }

  /** Requesting state 255 with colour (255,255,255) writes the erased pattern,
      and the next boot recovers it as the all-zero default. */
  lemma AllOnesUpdateLostOnReboot(s: Store, pwm: PwmControl.State)
    requires s.cache != ERASED
    ensures var s1 := Update(s, Request(true, 0xFF, true, 0xFF, 0xFF, 0xFF));
            && Decode(s1.cache) == Fields(0xFF, 0xFF, 0xFF, 0xFF)
            && s1.flash.word == ERASED
            && Init(s1.flash.word, true, pwm).boot.characteristics == Fields(0, 0, 0, 0)
  {
  }

  /** A rejected erase stops the device with the flash untouched; the next
      boot recovers the record as it was before the update. */
  lemma RejectedEraseKeepsRecord(s: Store, q: Request, pwm: PwmControl.State)
    requires InSync(s) && Changes(s.cache, q)
    ensures var o := UpdateWithIo(s, q, FlashIo(false, true));
            && o.Fault?
            && Init(o.flash.word, true, pwm).boot.store.cache == Recovered(s.cache)
  {
  }

  /** A rejected write after an accepted erase stops the device with the page
      erased; the next boot comes up with the all-zero default, LED off. */
  lemma RejectedWriteLosesRecord(s: Store, q: Request, pwm: PwmControl.State)
    requires Changes(s.cache, q)
    ensures var o := UpdateWithIo(s, q, FlashIo(true, false));
            var b := Init(o.flash.word, true, pwm).boot;
            && o.Fault?
            && b.characteristics == Fields(0, 0, 0, 0)
            && !b.pwm.enabled
  {
  }
}
