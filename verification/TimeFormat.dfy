/**
  The packed 32-bit time word (10 bits hours, 6 minutes, 6 seconds, 10 ticks), the four wheels a
  timer can be filed in, and what a word is worth in ticks.
 */
module TimeFormat {
  const WORD: nat := 0x1_0000_0000
  const TICKS_PER_SECOND: nat := 100

  const TICK: nat := 0
  const SEC: nat := 1
  const MIN: nat := 2
  const HRS: nat := 3

  function Add32(a: nat, b: nat): nat { (a + b) % WORD }

  // ---------- a time by its fields ----------

  datatype Time = Time(h: nat, m: nat, s: nat, k: nat)

  /** No time left. */
  predicate Spent(t: Time) { t.h == 0 && t.m == 0 && t.s == 0 && t.k == 0 }

  function Field(t: Time, w: nat): nat {
    if w == TICK then t.k else if w == SEC then t.s else if w == MIN then t.m else t.h
  }

  function Clear(t: Time, w: nat): Time {
    if w == TICK then t.(k := 0) else if w == SEC then t.(s := 0) else if w == MIN then t.(m := 0) else t.(h := 0)
  }

  /** The wheel of the leading non-zero field; 4 if there is none. */
  function Leading(t: Time): nat {
    if t.h != 0 then HRS else if t.m != 0 then MIN else if t.s != 0 then SEC else if t.k != 0 then TICK else 4
  }

  /** Ticks in one unit of a wheel. */
  function Unit(w: nat): nat { if w == TICK then 1 else if w == SEC then 100 else if w == MIN then 6000 else 360000 }

  /** `n` units of a wheel, in ticks. */
  function Units(w: nat, n: nat): nat {
    if w == TICK then n else if w == SEC then 100 * n else if w == MIN then 6000 * n else 360000 * n
  }

  /** Ticks a time stands for. */
  function Worth(t: Time): nat { t.k + 100 * t.s + 6000 * t.m + 360000 * t.h }

  // ---------- the packed word ----------

  /** The fields side by side in one word; no time left is the zero word. */
  function Encode(t: Time): nat { if Spent(t) then 0 else t.k + 1024 * (t.s + 64 * (t.m + 64 * t.h)) }

  function Decode(ct: nat): Time {
    Time((ct / 4194304) % 1024, (ct / 65536) % 64, (ct / 1024) % 64, ct % 1024)
  }

  /** The fields a word can hold. */
  predicate Fitting(t: Time) { t.h < 1024 && t.m < 64 && t.s < 64 && t.k < 1024 }

  lemma EncodeDecode(t: Time)
    requires Fitting(t)
    ensures Encode(t) < WORD && Decode(Encode(t)) == t
  {
    var ct := Encode(t);
    assert ct / 1024 == t.s + 64 * (t.m + 64 * t.h);
    assert ct / 65536 == (ct / 1024) / 64 == t.m + 64 * t.h;
    assert ct / 4194304 == (ct / 65536) / 64 == t.h;
  }

  lemma DecodeEncode(ct: nat)
    requires ct < WORD
    ensures Fitting(Decode(ct)) && Encode(Decode(ct)) == ct
  {
    assert ct / 65536 == (ct / 1024) / 64;
    assert ct / 4194304 == (ct / 65536) / 64;
  }

  /** The word with the field of one wheel masked out. */
  function ClearWord(ct: nat, w: nat): nat { Encode(Clear(Decode(ct), w)) }

  lemma ZeroFields(t: Time)
    ensures Encode(t) == 0 <==> Spent(t)
  {
  }

  // ---------- the word by its bits ----------

  /** Fields or-ed into their bit ranges, as the SET macros do from a zero word. */
  function Pack(h: bv10, m: bv6, s: bv6, k: bv10): bv32 {
    (k as bv32) | ((s as bv32) << 10) | ((m as bv32) << 16) | ((h as bv32) << 22)
  }

  /** Fields shifted down and masked, as the GET macros read them. */
  function Tks(ct: bv32): bv10 { (ct & 0x3FF) as bv10 }
  function Secs(ct: bv32): bv6 { ((ct >> 10) & 0x3F) as bv6 }
  function Mins(ct: bv32): bv6 { ((ct >> 16) & 0x3F) as bv6 }
  function Hrs(ct: bv32): bv10 { ((ct >> 22) & 0x3FF) as bv10 }

  function Fields(ct: bv32): Time { Time(Hrs(ct) as nat, Mins(ct) as nat, Secs(ct) as nat, Tks(ct) as nat) }

  lemma JoinBits(h: bv10, m: bv6, s: bv6, k: bv10)
    ensures ((k as bv32) | ((s as bv32) << 10) | ((m as bv32) << 16) | ((h as bv32) << 22)) as nat
         == (k as nat) + 1024 * (s as nat) + 65536 * (m as nat) + 4194304 * (h as nat)
  {
  }

  lemma EncodeSum(t: Time)
    ensures Encode(t) == t.k + 1024 * t.s + 65536 * t.m + 4194304 * t.h
  {
  }

  /** The word packed by its bits is the encoding of its fields. */
  lemma PackIsEncode(h: bv10, m: bv6, s: bv6, k: bv10)
    ensures Pack(h, m, s, k) as nat == Encode(Time(h as nat, m as nat, s as nat, k as nat))
  {
    JoinBits(h, m, s, k);
    EncodeSum(Time(h as nat, m as nat, s as nat, k as nat));
  }

  lemma PackFields(ct: bv32)
    ensures Pack(Hrs(ct), Mins(ct), Secs(ct), Tks(ct)) == ct
  {
  }

  /** So the fields read by shifting and masking are those of the decoded word. */
  lemma GetIsDecode(ct: bv32)
    ensures Decode(ct as nat) == Fields(ct)
  {
    PackFields(ct);
    PackIsEncode(Hrs(ct), Mins(ct), Secs(ct), Tks(ct));
    EncodeDecode(Fields(ct));
  }

  /** The mask of each wheel. */
  function Masked(ct: bv32, w: nat): bv32 {
    if w == TICK then ct & 0xFFFF_FC00 else if w == SEC then ct & 0xFFFF_03FF
    else if w == MIN then ct & 0xFFC0_FFFF else ct & 0x003F_FFFF
  }

  lemma MaskTks(ct: bv32)
    ensures var x := ct & 0xFFFF_FC00; Tks(x) == 0 && Secs(x) == Secs(ct) && Mins(x) == Mins(ct) && Hrs(x) == Hrs(ct)
  {
  }

  lemma MaskSecs(ct: bv32)
    ensures var x := ct & 0xFFFF_03FF; Tks(x) == Tks(ct) && Secs(x) == 0 && Mins(x) == Mins(ct) && Hrs(x) == Hrs(ct)
  {
  }

  lemma MaskMins(ct: bv32)
    ensures var x := ct & 0xFFC0_FFFF; Tks(x) == Tks(ct) && Secs(x) == Secs(ct) && Mins(x) == 0 && Hrs(x) == Hrs(ct)
  {
  }

  lemma MaskHrs(ct: bv32)
    ensures var x := ct & 0x003F_FFFF; Tks(x) == Tks(ct) && Secs(x) == Secs(ct) && Mins(x) == Mins(ct) && Hrs(x) == 0
  {
  }

  /** A word `x` that differs from `ct` in the field of one wheel, which is zero. */
  ghost predicate Zeroes(ct: bv32, x: bv32, w: nat) {
    && Tks(x) == (if w == TICK then 0 else Tks(ct)) && Secs(x) == (if w == SEC then 0 else Secs(ct))
    && Mins(x) == (if w == MIN then 0 else Mins(ct)) && Hrs(x) == (if w > MIN then 0 else Hrs(ct))
  }

  lemma ZeroesFields(ct: bv32, x: bv32, w: nat)
    requires Zeroes(ct, x, w)
    ensures Fields(x) == Clear(Fields(ct), w)
  {
  }

  lemma MaskZeroes(ct: bv32, w: nat)
    ensures Zeroes(ct, Masked(ct, w), w)
  {
    if w == TICK {
      MaskTks(ct);
    } else if w == SEC {
      MaskSecs(ct);
    } else if w == MIN {
      MaskMins(ct);
    } else {
      MaskHrs(ct);
    }
  }

  /** And-ing with the mask of a wheel clears the field of that wheel and no other. */
  lemma MaskIsClear(ct: bv32, w: nat)
    ensures Masked(ct, w) as nat == ClearWord(ct as nat, w)
  {
    var x := Masked(ct, w);
    MaskZeroes(ct, w);
    ZeroesFields(ct, x, w);
    GetIsDecode(ct);
    GetIsDecode(x);
    DecodeEncode(x as nat);
  }

  // ---------- durations ----------

  /** The longest time a word can hold: 1024 hours. */
  const HORIZON: nat := 368640000

  /** A duration in ticks by its fields; hours beyond ten bits fall off the word. */
  function Split(ticks: nat): Time {
    var secs := ticks / TICKS_PER_SECOND;
    var mins := secs / 60;
    var hrs := mins / 60;
    Time(hrs % 1024, mins % 60, secs % 60, ticks % TICKS_PER_SECOND)
  }

  /** The fields of a duration fit the word and are worth the duration, up to whole 1024-hour periods. */
  lemma SplitWorth(ticks: nat)
    ensures Fitting(Split(ticks)) && Worth(Split(ticks)) == ticks % HORIZON
  {
    var secs := ticks / 100;
    var mins := secs / 60;
    var hrs := mins / 60;
    var rest := ticks % 100 + 100 * (secs % 60) + 6000 * (mins % 60);
    assert ticks == rest + 360000 * hrs && rest < 360000;
    assert hrs == 1024 * (hrs / 1024) + hrs % 1024;
    Remainder(ticks, hrs / 1024, rest + 360000 * (hrs % 1024));
  }

  lemma Remainder(a: nat, q: nat, r: nat)
    requires a == HORIZON * q + r && r < HORIZON
    ensures a % HORIZON == r
  {
  }
}
