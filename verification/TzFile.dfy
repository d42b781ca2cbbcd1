/** Reading a compiled time zone file: `readTimeZoneFile` of base/timezone.cpp, version 1 of RFC 8536. */
module TzFile {
  import opened CInt
  import opened Zone

  type Byte = x: int | 0 <= x < 256

  type Int32 = x: int | INT_MIN <= x <= INT_MAX

  // -------------------------------------------------------------- big-endian

  function Int32Of(b0: Byte, b1: Byte, b2: Byte, b3: Byte): Int32 {
    var u := ((b0 * 256 + b1) * 256 + b2) * 256 + b3;
    if u <= INT_MAX then u else u - 0x1_0000_0000
  }

  function Be32(x: Int32): (bs: seq<Byte>)
    ensures |bs| == 4
  {
    var u := if x < 0 then x + 0x1_0000_0000 else x;
    [u / 0x100_0000, u / 0x1_0000 % 256, u / 256 % 256, u % 256]
  }

  function Int32At(bs: seq<Byte>, p: nat): Int32
    requires p + 4 <= |bs|
  {
    Int32Of(bs[p], bs[p + 1], bs[p + 2], bs[p + 3])
  }

  lemma Be32RoundTrip(x: Int32)
    ensures Int32At(Be32(x), 0) == x
  {
    var u := if x < 0 then x + 0x1_0000_0000 else x;
    var u1 := u / 256;
    var u2 := u1 / 256;
    Euclid(u, 256);
    Euclid(u1, 256);
    Euclid(u2, 256);
    DivUnique(u, 0x1_0000, u2, u1 % 256 * 256 + u % 256);
    DivUnique(u, 0x100_0000, u2 / 256, u2 % 256 * 0x1_0000 + u1 % 256 * 256 + u % 256);
  }

  // ------------------------------------------------------------------ reading

  /** How a read of the file ends: normally, by a caught `logic_error`, or in behaviour C++ leaves undefined. */
  datatype Outcome = Complete | Thrown | Undefined

  datatype Parsed = Parsed(data: Data, outcome: Outcome)

  const EMPTY := Data([], [], "")
  const MAGIC: seq<Byte> := [0x54, 0x5A, 0x69, 0x66]
  const HEADER := 44

  function Text(bs: seq<Byte>): string {
    seq(|bs|, i requires 0 <= i < |bs| => bs[i] as char)
  }

  function TypeAt(bs: seq<Byte>, p: nat): Localtime
    requires p + 6 <= |bs|
  {
    Localtime(Int32At(bs, p), bs[p + 4] != 0, bs[p + 5])
  }

  function TypesFrom(bs: seq<Byte>, p: nat, n: nat): (r: seq<Localtime>)
    requires p + 6 * n <= |bs|
    ensures |r| == n
  {
    seq(n, i requires 0 <= i < n => TypeAt(bs, p + 6 * i))
  }

  function TimesFrom(bs: seq<Byte>, p: nat, n: nat): (r: seq<Int32>)
    requires p + 4 * n <= |bs|
    ensures |r| == n
  {
    seq(n, i requires 0 <= i < n => Int32At(bs, p + 4 * i))
  }

  /** How many indices, from the first, point into a table of `n` types. */
  function GoodIndices(indices: seq<Byte>, n: nat): (k: nat)
    ensures k <= |indices| && (forall i :: 0 <= i < k ==> indices[i] < n) && (k < |indices| ==> indices[k] >= n)
  {
    if indices == [] || indices[0] >= n then 0 else 1 + GoodIndices(indices[1..], n)
  }

  function Join(times: seq<Int32>, indices: seq<Byte>, types: seq<Localtime>, k: nat): seq<Transition>
    requires k <= |times| && k <= |indices| && forall i :: 0 <= i < k ==> indices[i] < |types|
  {
    seq(k, i requires 0 <= i < k => Transition(times[i], times[i] + types[indices[i]].gmtOffset, indices[i]))
  }

  /** What the tables hold after reading `bs`, by the layout of section 3 of RFC 8536, and how reading ends. */
  function Parse(bs: seq<Byte>): Parsed {
    if |bs| < HEADER || bs[..4] != MAGIC then Parsed(EMPTY, Thrown)
    else
      var timecnt, typecnt, charcnt := Int32At(bs, 32), Int32At(bs, 36), Int32At(bs, 40);
      if timecnt < 0 || |bs| < HEADER + 5 * timecnt then Parsed(EMPTY, Thrown)
      else
        var base := HEADER + 5 * timecnt;
        var wanted := if typecnt < 0 then 0 else typecnt;
        if |bs| < base + 6 * wanted then
          Parsed(EMPTY.(localtimes := TypesFrom(bs, base, (|bs| - base) / 6)), Thrown)
        else
          var types := TypesFrom(bs, base, wanted);
          var times := TimesFrom(bs, HEADER, timecnt);
          var indices := bs[HEADER + 4 * timecnt..base];
          var k := GoodIndices(indices, wanted);
          var data := Data(Join(times, indices, types, k), types, "");
          var chars := base + 6 * wanted;
          if k < timecnt || charcnt < 0 then Parsed(data, Undefined)
          else if |bs| < chars + charcnt then Parsed(data, Thrown)
          else Parsed(data.(abbreviation := Text(bs[chars..chars + charcnt])), Complete)
  }

  /** The vectors and the string of `TimeZone::Data`, filled in place. */
  class Tables {
    var transitions: seq<Transition>
    var localtimes: seq<Localtime>
    var abbreviation: string

    constructor ()
      ensures View() == EMPTY
    {
      transitions, localtimes, abbreviation := [], [], "";
    }

    function View(): Data
      reads this
    {
      Data(transitions, localtimes, abbreviation)
    }
  }

  /** An open file: its bytes and the read position. A short read throws. */
  class File {
    const bytes: seq<Byte>
    var pos: nat

    ghost predicate Valid()
      reads this
    {
      pos <= |bytes|
    }

    constructor (bytes: seq<Byte>)
      ensures Valid() && this.bytes == bytes && pos == 0
    {
      this.bytes := bytes;
      pos := 0;
    }

    method ReadBytes(n: nat) returns (ok: bool, s: seq<Byte>)
      requires Valid()
      modifies this
      ensures Valid() && ok == (old(pos) + n <= |bytes|)
      ensures ok ==> s == bytes[old(pos)..old(pos) + n] && pos == old(pos) + n
    {
      if pos + n <= |bytes| {
        ok, s, pos := true, bytes[pos..pos + n], pos + n;
      } else {
        ok, s, pos := false, [], |bytes|;
      }
    }

    method ReadInt32() returns (ok: bool, x: Int32)
      requires Valid()
      modifies this
      ensures Valid() && ok == (old(pos) + 4 <= |bytes|)
      ensures ok ==> x == Int32At(bytes, old(pos)) && pos == old(pos) + 4
    {
      var s;
      ok, s := ReadBytes(4);
      x := if ok then Int32Of(s[0], s[1], s[2], s[3]) else 0;
    }

    method ReadUInt8() returns (ok: bool, x: Byte)
      requires Valid()
      modifies this
      ensures Valid() && ok == (old(pos) + 1 <= |bytes|)
      ensures ok ==> x == bytes[old(pos)] && pos == old(pos) + 1
    {
      var s;
      ok, s := ReadBytes(1);
      x := if ok then s[0] else 0;
    }
  }

  method ReadHeader(f: File) returns (ok: bool, timecnt: Int32, typecnt: Int32, charcnt: Int32)
    requires f.Valid() && f.pos == 0
    modifies f
    ensures f.Valid() && ok == (|f.bytes| >= HEADER && f.bytes[..4] == MAGIC)
    ensures ok ==> f.pos == HEADER && timecnt == Int32At(f.bytes, 32) && typecnt == Int32At(f.bytes, 36)
                   && charcnt == Int32At(f.bytes, 40)
  {
    timecnt, typecnt, charcnt := 0, 0, 0;
    var head, skipped, count;
    ok, head := f.ReadBytes(4);
    if !ok { return; }
    if head != MAGIC {
      ok := false;
      return;
    }
    ok, skipped := f.ReadBytes(1);
    if !ok { return; }
    ok, skipped := f.ReadBytes(15);
    if !ok { return; }
    ok, count := f.ReadInt32();
    if !ok { return; }
    ok, count := f.ReadInt32();
    if !ok { return; }
    ok, count := f.ReadInt32();
    if !ok { return; }
    ok, timecnt := f.ReadInt32();
    if !ok { return; }
    ok, typecnt := f.ReadInt32();
    if !ok { return; }
    ok, charcnt := f.ReadInt32();
  }

  method ReadTimes(f: File, timecnt: nat) returns (ok: bool, trans: seq<Int32>, localtimes: seq<Byte>)
    requires f.Valid()
    modifies f
    ensures f.Valid() && ok == (old(f.pos) + 5 * timecnt <= |f.bytes|)
    ensures ok ==> f.pos == old(f.pos) + 5 * timecnt
    ensures ok ==> trans == TimesFrom(f.bytes, old(f.pos), timecnt)
    ensures ok ==> localtimes == f.bytes[old(f.pos) + 4 * timecnt..old(f.pos) + 5 * timecnt]
  {
    trans, localtimes := [], [];
    ghost var start := f.pos;
    for i := 0 to timecnt
      invariant f.Valid() && f.pos == start + 4 * i
      invariant trans == TimesFrom(f.bytes, start, i)
    {
      var x;
      ok, x := f.ReadInt32();
      if !ok { return; }
      trans := trans + [x];
    }
    for i := 0 to timecnt
      invariant f.Valid() && f.pos == start + 4 * timecnt + i
      invariant localtimes == f.bytes[start + 4 * timecnt..start + 4 * timecnt + i]
    {
      var local;
      ok, local := f.ReadUInt8();
      if !ok { return; }
      localtimes := localtimes + [local];
    }
    ok := true;
  }

  method ReadTypes(f: File, typecnt: nat, data: Tables) returns (ok: bool)
    requires f.Valid() && data.localtimes == []
    modifies f, data`localtimes
    ensures f.Valid() && ok == (old(f.pos) + 6 * typecnt <= |f.bytes|)
    ensures ok ==> f.pos == old(f.pos) + 6 * typecnt && data.localtimes == TypesFrom(f.bytes, old(f.pos), typecnt)
    ensures !ok ==> data.localtimes == TypesFrom(f.bytes, old(f.pos), (|f.bytes| - old(f.pos)) / 6)
  {
    ghost var start := f.pos;
    for i := 0 to typecnt
      invariant f.Valid() && f.pos == start + 6 * i
      invariant data.localtimes == TypesFrom(f.bytes, start, i)
    {
      if |f.bytes| < start + 6 * i + 6 {
        DivUnique(|f.bytes| - start, 6, i, |f.bytes| - start - 6 * i);
      }
      var gmtoff, isdst, abbrind;
      ok, gmtoff := f.ReadInt32();
      if !ok { return; }
      ok, isdst := f.ReadUInt8();
      if !ok { return; }
      ok, abbrind := f.ReadUInt8();
      if !ok { return; }
      data.localtimes := data.localtimes + [Localtime(gmtoff, isdst != 0, abbrind)];
    }
    ok := true;
  }

  method JoinTransitions(trans: seq<Int32>, localtimes: seq<Byte>, data: Tables) returns (ok: bool)
    requires |trans| == |localtimes| && data.transitions == []
    modifies data`transitions
    ensures ok == (GoodIndices(localtimes, |data.localtimes|) == |trans|)
    ensures data.transitions == Join(trans, localtimes, data.localtimes, GoodIndices(localtimes, |data.localtimes|))
  {
    ghost var k := GoodIndices(localtimes, |data.localtimes|);
    for i := 0 to |trans|
      invariant i <= k
      invariant data.transitions == Join(trans, localtimes, data.localtimes, i)
    {
      var localIdx := localtimes[i];
      if localIdx >= |data.localtimes| {
        return false;  // an unchecked vector index
      }
      var localtime := trans[i] + data.localtimes[localIdx].gmtOffset;
      data.transitions := data.transitions + [Transition(trans[i], localtime, localIdx)];
    }
    ok := true;
  }

  /** The reader always reports success; `outcome` tells what really happened. */
  method ReadTimeZoneFile(f: File?, data: Tables) returns (success: bool, outcome: Outcome)
    requires f != null ==> f.Valid() && f.pos == 0
    requires data.View() == EMPTY
    modifies f, data
    ensures success
    ensures f == null ==> data.View() == EMPTY
    ensures f != null ==> Parsed(data.View(), outcome) == Parse(f.bytes)
  {
    hide Int32Of, Int32At, TypesFrom, TimesFrom, Text, Join, GoodIndices;
    success, outcome := true, Thrown;
    if f == null { return; }
    var ok, timecnt, typecnt, charcnt := ReadHeader(f);
    if !ok { return; }
    if timecnt < 0 { return; }  // vector::reserve throws length_error
    var trans, localtimes;
    ok, trans, localtimes := ReadTimes(f, timecnt);
    if !ok { return; }
    ok := ReadTypes(f, if typecnt < 0 then 0 else typecnt, data);
    if !ok { return; }
    ok := JoinTransitions(trans, localtimes, data);
    if !ok || charcnt < 0 {
      outcome := Undefined;
      return;
    }
    var chars;
    ok, chars := f.ReadBytes(charcnt);
    if !ok { return; }
    data.abbreviation := Text(chars);
    outcome := Complete;
  }

  // ------------------------------------------------------------------ writing

  datatype TypeRecord = TypeRecord(utoff: Int32, isdst: Byte, desigidx: Byte)

  /** The header and data block of section 3 of RFC 8536; `rest` is what follows the designations. */
  datatype ZoneFile = ZoneFile(version: Byte, reserved: seq<Byte>, isutcnt: Int32, isstdcnt: Int32, leapcnt: Int32,
                               times: seq<Int32>, indices: seq<Byte>, types: seq<TypeRecord>,
                               designations: seq<Byte>, rest: seq<Byte>)

  ghost predicate WellFormed(z: ZoneFile) {
    && |z.reserved| == 15
    && |z.times| == |z.indices| <= INT_MAX && |z.types| <= INT_MAX && |z.designations| <= INT_MAX
    && forall i :: 0 <= i < |z.indices| ==> z.indices[i] < |z.types|
  }

  function EncodeTimes(times: seq<Int32>): (bs: seq<Byte>)
    ensures |bs| == 4 * |times|
  {
    if times == [] then [] else EncodeTimes(times[..|times| - 1]) + Be32(times[|times| - 1])
  }

  function EncodeTypes(types: seq<TypeRecord>): (bs: seq<Byte>)
    ensures |bs| == 6 * |types|
  {
    if types == [] then []
    else
      var t := types[|types| - 1];
      EncodeTypes(types[..|types| - 1]) + Be32(t.utoff) + [t.isdst, t.desigidx]
  }

  function EncodeHeader(z: ZoneFile): (bs: seq<Byte>)
    requires WellFormed(z)
    ensures |bs| == HEADER
  {
    MAGIC + [z.version] + z.reserved + Be32(z.isutcnt) + Be32(z.isstdcnt) + Be32(z.leapcnt)
    + Be32(|z.times|) + Be32(|z.types|) + Be32(|z.designations|)
  }

  function Encode(z: ZoneFile): seq<Byte>
    requires WellFormed(z)
  {
    EncodeHeader(z) + (EncodeTimes(z.times) + (z.indices + (EncodeTypes(z.types) + (z.designations + z.rest))))
  }

  ghost function Types(z: ZoneFile): seq<Localtime> {
    seq(|z.types|, i requires 0 <= i < |z.types| =>
      Localtime(z.types[i].utoff, z.types[i].isdst != 0, z.types[i].desigidx))
  }

  /** The tables the file describes. */
  ghost function Meaning(z: ZoneFile): Data
    requires WellFormed(z)
  {
    Data(seq(|z.times|, i requires 0 <= i < |z.times| =>
           Transition(z.times[i], z.times[i] + z.types[z.indices[i]].utoff, z.indices[i])),
         Types(z), Text(z.designations))
  }

  lemma Int32Within(bs: seq<Byte>, p: nat, x: Int32)
    requires p + 4 <= |bs| && bs[p..p + 4] == Be32(x)
    ensures Int32At(bs, p) == x
  {
    Be32RoundTrip(x);
    var four := bs[p..p + 4];
    assert bs[p] == four[0] && bs[p + 1] == four[1] && bs[p + 2] == four[2] && bs[p + 3] == four[3];
  }

  lemma {:induction false} TimeEncoded(times: seq<Int32>, i: nat)
    requires i < |times|
    ensures EncodeTimes(times)[4 * i..4 * i + 4] == Be32(times[i])
  {
    hide Be32;
    var last := |times| - 1;
    var front := EncodeTimes(times[..last]);
    if i < last {
      TimeEncoded(times[..last], i);
      SliceOfSlice(front + Be32(times[last]), 0, 4 * last, 4 * i, 4);
      assert (front + Be32(times[last]))[0..4 * last] == front;
    }
  }

  lemma {:induction false} TypeEncoded(types: seq<TypeRecord>, i: nat)
    requires i < |types|
    ensures var bs := EncodeTypes(types);
            && bs[6 * i..6 * i + 4] == Be32(types[i].utoff)
            && bs[6 * i + 4] == types[i].isdst && bs[6 * i + 5] == types[i].desigidx
  {
    hide Be32;
    var last := |types| - 1;
    var front, bs := EncodeTypes(types[..last]), EncodeTypes(types);
    assert bs[0..6 * last] == front;
    if i < last {
      TypeEncoded(types[..last], i);
      SliceOfSlice(bs, 0, 6 * last, 6 * i, 4);
    }
  }

  lemma SliceOfSlice(s: seq<Byte>, a: nat, n: nat, i: nat, k: nat)
    requires a + n <= |s| && i + k <= n
    ensures s[a..a + n][i..i + k] == s[a + i..a + i + k]
  {
    var u, v := s[a..a + n][i..i + k], s[a + i..a + i + k];
    assert forall j :: 0 <= j < k ==> u[j] == v[j];
  }

  lemma HeaderLayout(z: ZoneFile)
    requires WellFormed(z)
    ensures var h := EncodeHeader(z);
            && h[..4] == MAGIC && h[32..36] == Be32(|z.times|) && h[36..40] == Be32(|z.types|)
            && h[40..44] == Be32(|z.designations|)
  {
    hide Be32;
    var front := MAGIC + [z.version] + z.reserved + Be32(z.isutcnt) + Be32(z.isstdcnt) + Be32(z.leapcnt);
    assert |front| == 32;
    assert EncodeHeader(z) == front + Be32(|z.times|) + Be32(|z.types|) + Be32(|z.designations|);
    assert front[..4] == MAGIC;
  }

  lemma FirstPart(s: seq<Byte>, p: nat, part: seq<Byte>, back: seq<Byte>)
    requires p <= |s| && s[p..] == part + back
    ensures p + |part| <= |s| && s[p..p + |part|] == part && s[p + |part|..] == back
  {
    var q := p + |part|;
    assert s[p..][..|part|] == part && s[p..][|part|..] == back;
    assert s[p..q] == s[p..][..|part|] && s[q..] == s[p..][|part|..];
  }

  /** Where each part of the encoding lies. */
  lemma Layout(z: ZoneFile)
    requires WellFormed(z)
    ensures var bs, n := Encode(z), |z.times|;
            var base := HEADER + 5 * n;
            var chars := base + 6 * |z.types|;
            && |bs| >= chars + |z.designations|
            && bs[..HEADER] == EncodeHeader(z)
            && bs[HEADER..HEADER + 4 * n] == EncodeTimes(z.times)
            && bs[HEADER + 4 * n..base] == z.indices
            && bs[base..chars] == EncodeTypes(z.types)
            && bs[chars..chars + |z.designations|] == z.designations
  {
    hide EncodeHeader, EncodeTimes, EncodeTypes;
    var h, a, i, y := EncodeHeader(z), EncodeTimes(z.times), z.indices, EncodeTypes(z.types);
    var d, r := z.designations, z.rest;
    var bs := Encode(z);
    assert bs[0..] == bs;
    FirstPart(bs, 0, h, a + (i + (y + (d + r))));
    FirstPart(bs, |h|, a, i + (y + (d + r)));
    FirstPart(bs, |h| + |a|, i, y + (d + r));
    FirstPart(bs, |h| + |a| + |i|, y, d + r);
    FirstPart(bs, |h| + |a| + |i| + |y|, d, r);
  }

  lemma CountsRead(z: ZoneFile, bs: seq<Byte>)
    requires WellFormed(z) && |bs| >= HEADER && bs[..HEADER] == EncodeHeader(z)
    ensures bs[..4] == MAGIC
    ensures Int32At(bs, 32) == |z.times| && Int32At(bs, 36) == |z.types| && Int32At(bs, 40) == |z.designations|
  {
    hide EncodeHeader, Int32At, Be32;
    HeaderLayout(z);
    SliceOfSlice(bs, 0, HEADER, 0, 4);
    SliceOfSlice(bs, 0, HEADER, 32, 4);
    SliceOfSlice(bs, 0, HEADER, 36, 4);
    SliceOfSlice(bs, 0, HEADER, 40, 4);
    assert bs[0..HEADER] == bs[..HEADER] && bs[0..4] == bs[..4];
    Int32Within(bs, 32, |z.times|);
    Int32Within(bs, 36, |z.types|);
    Int32Within(bs, 40, |z.designations|);
  }

  lemma TimesRead(z: ZoneFile, bs: seq<Byte>)
    requires |bs| >= HEADER + 4 * |z.times| && bs[HEADER..HEADER + 4 * |z.times|] == EncodeTimes(z.times)
    ensures TimesFrom(bs, HEADER, |z.times|) == z.times
  {
    hide Int32At;
    forall i | 0 <= i < |z.times| ensures Int32At(bs, HEADER + 4 * i) == z.times[i] {
      TimeEncoded(z.times, i);
      SliceOfSlice(bs, HEADER, 4 * |z.times|, 4 * i, 4);
      Int32Within(bs, HEADER + 4 * i, z.times[i]);
    }
  }

  lemma TypesRead(z: ZoneFile, bs: seq<Byte>, base: nat)
    requires |bs| >= base + 6 * |z.types| && bs[base..base + 6 * |z.types|] == EncodeTypes(z.types)
    ensures TypesFrom(bs, base, |z.types|) == Types(z)
  {
    hide Int32At;
    forall i | 0 <= i < |z.types| ensures TypeAt(bs, base + 6 * i) == Types(z)[i] {
      TypeRead(z, bs, base, i);
    }
  }

  lemma TypeRead(z: ZoneFile, bs: seq<Byte>, base: nat, i: nat)
    requires |bs| >= base + 6 * |z.types| && bs[base..base + 6 * |z.types|] == EncodeTypes(z.types)
    requires i < |z.types|
    ensures TypeAt(bs, base + 6 * i) == Types(z)[i]
  {
    hide Int32At;
    TypeEncoded(z.types, i);
    var part := bs[base..base + 6 * |z.types|];
    SliceOfSlice(bs, base, 6 * |z.types|, 6 * i, 4);
    assert bs[base + 6 * i + 4] == part[6 * i + 4] && bs[base + 6 * i + 5] == part[6 * i + 5];
    Int32Within(bs, base + 6 * i, z.types[i].utoff);
  }

  /** Reading an encoding recovers exactly the tables it encodes. */
  lemma ReadsBack(z: ZoneFile)
    requires WellFormed(z)
    ensures Parse(Encode(z)) == Parsed(Meaning(z), Complete)
  {
    hide Int32Of, Int32At, TypesFrom, TimesFrom, GoodIndices, Text;
    hide Encode, EncodeTimes, EncodeTypes, EncodeHeader, Be32;
    var bs, n := Encode(z), |z.times|;
    Layout(z);
    CountsRead(z, bs);
    TimesRead(z, bs);
    TypesRead(z, bs, HEADER + 5 * n);
    assert GoodIndices(z.indices, |z.types|) == n;
    assert Join(z.times, z.indices, Types(z), n) == Meaning(z).transitions;
  }

  /** On any bytes, a transition's local time is its UTC time plus the offset of its type. */
  lemma TransitionsAreConsistent(bs: seq<Byte>)
    ensures var data := Parse(bs).data;
            forall tr :: tr in data.transitions ==>
              0 <= tr.localtimeIdx < |data.localtimes|
              && tr.localtime == tr.gmttime + data.localtimes[tr.localtimeIdx].gmtOffset
  {
    hide Int32Of, Int32At, TypesFrom, TimesFrom, Text;
  }

  // ------------------------------------------------ which files are read whole

  /** What the reader checks or relies on: enough bytes, counts that are not negative, indices within the types. */
  ghost predicate Readable(bs: seq<Byte>) {
    && |bs| >= HEADER && bs[..4] == MAGIC
    && var timecnt, typecnt, charcnt := Int32At(bs, 32), Int32At(bs, 36), Int32At(bs, 40);
       var base, types := HEADER + 5 * timecnt, if typecnt < 0 then 0 else typecnt;
       && timecnt >= 0 && charcnt >= 0 && |bs| >= base + 6 * types + charcnt
       && forall i :: HEADER + 4 * timecnt <= i < base ==> bs[i] < types
  }

  /** The reader reports success for any file, but has read the tables whole exactly from these. */
  lemma CompleteExactly(bs: seq<Byte>)
    ensures Parse(bs).outcome.Complete? <==> Readable(bs)
  {
    hide Int32At, TypesFrom, TimesFrom, Text, Join, GoodIndices;
    if |bs| >= HEADER && bs[..4] == MAGIC {
      var timecnt: int, typecnt: int := Int32At(bs, 32), Int32At(bs, 36);
      if timecnt >= 0 && |bs| >= HEADER + 5 * timecnt {
        IndicesGood(bs, HEADER + 4 * timecnt, HEADER + 5 * timecnt, if typecnt < 0 then 0 else typecnt);
      }
    }
  }

  lemma IndicesGood(bs: seq<Byte>, from: nat, to: nat, n: nat)
    requires from <= to <= |bs|
    ensures GoodIndices(bs[from..to], n) == to - from <==> forall i :: from <= i < to ==> bs[i] < n
  {
    var part := bs[from..to];
    var k := GoodIndices(part, n);
    assert forall i :: from <= i < to ==> bs[i] == part[i - from];
    assert k < |part| ==> part[k] == bs[from + k];
  }

  lemma DecodedInt32(b0: Byte, b1: Byte, b2: Byte, b3: Byte)
    ensures Be32(Int32Of(b0, b1, b2, b3)) == [b0, b1, b2, b3]
  {
    var u := ((b0 * 256 + b1) * 256 + b2) * 256 + b3;
    var u1, u2 := (b0 * 256 + b1) * 256 + b2, b0 * 256 + b1;
    DivUnique(u, 256, u1, b3);
    DivUnique(u1, 256, u2, b2);
    DivUnique(u2, 256, b0, b1);
    DivUnique(u, 0x1_0000, u2, b2 * 256 + b3);
    DivUnique(u, 0x100_0000, b0, (b1 * 256 + b2) * 256 + b3);
  }

  lemma ReadInt32Encodes(bs: seq<Byte>, p: nat)
    requires p + 4 <= |bs|
    ensures Be32(Int32At(bs, p)) == bs[p..p + 4]
  {
    hide Int32Of;
    DecodedInt32(bs[p], bs[p + 1], bs[p + 2], bs[p + 3]);
  }

  lemma {:induction false} ReadTimesEncode(bs: seq<Byte>, p: nat, n: nat)
    requires p + 4 * n <= |bs|
    ensures EncodeTimes(TimesFrom(bs, p, n)) == bs[p..p + 4 * n]
  {
    hide Int32At, Be32;
    if n > 0 {
      ReadTimesEncode(bs, p, n - 1);
      assert TimesFrom(bs, p, n)[..n - 1] == TimesFrom(bs, p, n - 1);
      ReadInt32Encodes(bs, p + 4 * (n - 1));
    }
  }

  function RecordAt(bs: seq<Byte>, p: nat): TypeRecord
    requires p + 6 <= |bs|
  {
    TypeRecord(Int32At(bs, p), bs[p + 4], bs[p + 5])
  }

  function RecordsFrom(bs: seq<Byte>, p: nat, n: nat): (r: seq<TypeRecord>)
    requires p + 6 * n <= |bs|
    ensures |r| == n
  {
    seq(n, i requires 0 <= i < n => RecordAt(bs, p + 6 * i))
  }

  lemma JoinSlices(bs: seq<Byte>, a: nat, b: nat, c: nat)
    requires a <= b <= c <= |bs|
    ensures bs[a..c] == bs[a..b] + bs[b..c]
  {
  }

  lemma JoinThree(a: seq<Byte>, b: seq<Byte>, c: seq<Byte>)
    ensures a + (b + c) == a + b + c
  {
  }

  lemma {:induction false} ReadTypesEncode(bs: seq<Byte>, p: nat, n: nat)
    requires p + 6 * n <= |bs|
    ensures EncodeTypes(RecordsFrom(bs, p, n)) == bs[p..p + 6 * n]
  {
    hide Int32At, Be32;
    if n > 0 {
      var q := p + 6 * (n - 1);
      ReadTypesEncode(bs, p, n - 1);
      assert RecordsFrom(bs, p, n)[..n - 1] == RecordsFrom(bs, p, n - 1);
      ReadInt32Encodes(bs, q);
      JoinSlices(bs, p, q, q + 6);
      JoinSlices(bs, q, q + 4, q + 6);
      assert bs[q + 4..q + 6] == [bs[q + 4], bs[q + 5]];
      JoinThree(bs[p..q], bs[q..q + 4], bs[q + 4..q + 6]);
    }
  }

  /** The file that a readable sequence of bytes is the encoding of. */
  ghost function Decode(bs: seq<Byte>): ZoneFile
    requires Readable(bs) && Int32At(bs, 36) >= 0
  {
    var timecnt, typecnt, charcnt := Int32At(bs, 32), Int32At(bs, 36), Int32At(bs, 40);
    var base := HEADER + 5 * timecnt;
    var chars := base + 6 * typecnt;
    ZoneFile(bs[4], bs[5..20], Int32At(bs, 20), Int32At(bs, 24), Int32At(bs, 28),
             TimesFrom(bs, HEADER, timecnt), bs[HEADER + 4 * timecnt..base], RecordsFrom(bs, base, typecnt),
             bs[chars..chars + charcnt], bs[chars + charcnt..])
  }

  lemma DecodedHeader(bs: seq<Byte>)
    requires Readable(bs) && Int32At(bs, 36) >= 0
    ensures WellFormed(Decode(bs)) && EncodeHeader(Decode(bs)) == bs[..HEADER]
  {
    hide Int32At, TimesFrom, RecordsFrom, Be32;
    ReadInt32Encodes(bs, 20);
    ReadInt32Encodes(bs, 24);
    ReadInt32Encodes(bs, 28);
    ReadInt32Encodes(bs, 32);
    ReadInt32Encodes(bs, 36);
    ReadInt32Encodes(bs, 40);
    var h := bs[..4] + [bs[4]] + bs[5..20] + bs[20..24] + bs[24..28] + bs[28..32]
             + bs[32..36] + bs[36..40] + bs[40..44];
    assert h == bs[..HEADER];
  }

  lemma Fits(bs: seq<Byte>)
    requires Readable(bs) && Int32At(bs, 36) >= 0
    ensures Int32At(bs, 32) >= 0 && Int32At(bs, 40) >= 0
    ensures HEADER + 5 * Int32At(bs, 32) as int + 6 * Int32At(bs, 36) as int + Int32At(bs, 40) as int <= |bs|
  {
    hide Int32At;
  }

  lemma DecodedTables(bs: seq<Byte>)
    requires Readable(bs) && Int32At(bs, 36) >= 0
    ensures var z := Decode(bs);
            var b := HEADER + 5 * |z.times|;
            var c := b + 6 * |z.types|;
            && c <= c + |z.designations| <= |bs|
            && EncodeTimes(z.times) == bs[HEADER..HEADER + 4 * |z.times|] && EncodeTypes(z.types) == bs[b..c]
  {
    hide Int32At, TimesFrom, RecordsFrom, EncodeTimes, EncodeTypes, Readable;
    Fits(bs);
    var n: nat, m: nat := Int32At(bs, 32), Int32At(bs, 36);
    ReadTimesEncode(bs, HEADER, n);
    ReadTypesEncode(bs, HEADER + 5 * n, m);
  }

  lemma DecodedSlices(bs: seq<Byte>)
    requires Readable(bs) && Int32At(bs, 36) >= 0
    ensures var z := Decode(bs);
            var b := HEADER + 5 * |z.times|;
            var c := b + 6 * |z.types|;
            var d := c + |z.designations|;
            d <= |bs| && z.indices == bs[HEADER + 4 * |z.times|..b] && z.designations == bs[c..d] && z.rest == bs[d..]
  {
    Fits(bs);
    hide Int32At, TimesFrom, RecordsFrom, Readable;
  }

  lemma EncodesBack(bs: seq<Byte>)
    requires Readable(bs) && Int32At(bs, 36) >= 0
    ensures WellFormed(Decode(bs)) && Encode(Decode(bs)) == bs
  {
    hide Int32At, Decode, Encode, EncodeTimes, EncodeTypes, EncodeHeader, WellFormed, Readable;
    var z := Decode(bs);
    DecodedHeader(bs);
    DecodedTables(bs);
    DecodedSlices(bs);
    var b := HEADER + 5 * |z.times|;
    var c := b + 6 * |z.types|;
    Assemble(bs, z, HEADER, HEADER + 4 * |z.times|, b, c, c + |z.designations|);
  }

  lemma Assemble(bs: seq<Byte>, z: ZoneFile, h: nat, a: nat, b: nat, c: nat, d: nat)
    requires h <= a <= b <= c <= d <= |bs| && WellFormed(z)
    requires EncodeHeader(z) == bs[..h] && EncodeTimes(z.times) == bs[h..a] && z.indices == bs[a..b]
    requires EncodeTypes(z.types) == bs[b..c] && z.designations == bs[c..d] && z.rest == bs[d..]
    ensures Encode(z) == bs
  {
    hide EncodeTimes, EncodeTypes, EncodeHeader, WellFormed;
    JoinSlices(bs, c, d, |bs|);
    JoinSlices(bs, b, c, |bs|);
    JoinSlices(bs, a, b, |bs|);
    JoinSlices(bs, h, a, |bs|);
    assert bs[..h] + bs[h..] == bs;
    assert bs[d..] == bs[d..|bs|] && bs[h..] == bs[h..|bs|];
  }

  /** A negative number of types is read as none, so that there can be no transitions. */
  ghost predicate NegativeTypes(bs: seq<Byte>) {
    && |bs| >= HEADER && bs[..4] == MAGIC
    && Int32At(bs, 32) == 0 && Int32At(bs, 36) < 0 && 0 <= Int32At(bs, 40) <= |bs| - HEADER
  }

  lemma NoTransitions(bs: seq<Byte>)
    requires Readable(bs) && Int32At(bs, 36) < 0
    ensures NegativeTypes(bs)
  {
    var k := HEADER + 4 * Int32At(bs, 32);
    var first := if k < |bs| then bs[k] else 0;
    assert first >= 0;
  }

  /** Reading is whole exactly for the encodings of well-formed files, and for files with a negative number of types. */
  lemma CompleteIffEncoding(bs: seq<Byte>)
    ensures Parse(bs).outcome.Complete? <==> (exists z :: WellFormed(z) && bs == Encode(z)) || NegativeTypes(bs)
  {
    CompleteExactly(bs);
    hide Parse, Encode, WellFormed, Int32At, Decode;
    if Readable(bs) && Int32At(bs, 36) >= 0 {
      EncodesBack(bs);
      var z := Decode(bs);
      assert WellFormed(z) && bs == Encode(z);
    }
    if Readable(bs) && Int32At(bs, 36) < 0 {
      NoTransitions(bs);
    }
    if z :| WellFormed(z) && bs == Encode(z) {
      ReadsBack(z);
    }
  }

  /** A file that ends behind its magic number is a success with empty tables. */
  lemma MagicOnly()
    ensures Parse(MAGIC) == Parsed(EMPTY, Thrown)
  {
  }

  // ----------------------------------------- what is left of the other files

  /** Header, times, indices and types are all there, and the number of times is not negative. */
  ghost predicate TablesThere(bs: seq<Byte>) {
    && |bs| >= HEADER && bs[..4] == MAGIC
    && var timecnt: int, typecnt: int := Int32At(bs, 32), Int32At(bs, 36);
       timecnt >= 0 && |bs| >= HEADER + 5 * timecnt + 6 * if typecnt < 0 then 0 else typecnt
  }

  /** Index `i` of the file points behind the types. */
  ghost predicate BadIndex(bs: seq<Byte>, i: nat)
    requires TablesThere(bs)
  {
    i < Int32At(bs, 32) && bs[HEADER + 4 * Int32At(bs, 32) as int + i] >= Int32At(bs, 36)
  }

  /** C++ leaves reading undefined exactly at an index behind the types or a negative number of characters. */
  lemma UndefinedExactly(bs: seq<Byte>)
    ensures Parse(bs).outcome.Undefined?
            <==> TablesThere(bs) && ((exists i: nat :: BadIndex(bs, i)) || Int32At(bs, 40) < 0)
    ensures TablesThere(bs) ==>
              |Parse(bs).data.transitions| <= Int32At(bs, 32)
              && (forall i: nat :: i < |Parse(bs).data.transitions| ==> !BadIndex(bs, i))
              && (|Parse(bs).data.transitions| < Int32At(bs, 32) ==> BadIndex(bs, |Parse(bs).data.transitions|))
  {
    hide Int32At, TypesFrom, TimesFrom, Text, GoodIndices;
    if TablesThere(bs) {
      var timecnt: int, typecnt: int := Int32At(bs, 32), Int32At(bs, 36);
      var indices := bs[HEADER + 4 * timecnt..HEADER + 5 * timecnt];
      var k := GoodIndices(indices, if typecnt < 0 then 0 else typecnt);
      assert forall i: nat :: i < timecnt ==> indices[i] == bs[HEADER + 4 * timecnt + i];
      assert |Parse(bs).data.transitions| == k;
      if k < timecnt {
        assert BadIndex(bs, k);
      }
    }
  }

  lemma {:induction false} EncodedPrefix(types: seq<TypeRecord>, c: nat)
    requires c <= |types|
    ensures EncodeTypes(types[..c]) == EncodeTypes(types)[..6 * c]
  {
    hide Be32;
    if c < |types| {
      var front := types[..|types| - 1];
      EncodedPrefix(front, c);
      assert front[..c] == types[..c];
      assert EncodeTypes(types)[..6 * c] == EncodeTypes(front)[..6 * c];
    } else {
      assert types[..c] == types;
    }
  }

  lemma TypesReadInPart(z: ZoneFile, bs: seq<Byte>, base: nat, c: nat)
    requires c <= |z.types| && |bs| >= base + 6 * c
    requires bs[base..base + 6 * c] == EncodeTypes(z.types)[..6 * c]
    ensures TypesFrom(bs, base, c) == Types(z)[..c]
  {
    hide EncodeTypes, TypesFrom;
    var part := z.(types := z.types[..c]);
    EncodedPrefix(z.types, c);
    TypesRead(part, bs, base);
    assert Types(part) == Types(z)[..c];
  }

  /** What the encoding has at `a..b`, the first `n` bytes of it have there too. */
  lemma SliceOfPrefix(bs: seq<Byte>, n: nat, a: nat, b: nat)
    requires a <= b <= n <= |bs|
    ensures bs[..n][a..b] == bs[a..b]
  {
  }

  /**
   * The first `n` bytes of a file, for every `n`: nothing is kept before the types are reached, then the types that
   * are there whole, then types and transitions without the designations, and at last everything.
   */
  lemma TruncatedLeaves(z: ZoneFile, n: nat)
    requires WellFormed(z) && n <= |Encode(z)|
    ensures var base := HEADER + 5 * |z.times|;
            var chars := base + 6 * |z.types|;
            Parse(Encode(z)[..n]) ==
            if n < base then Parsed(EMPTY, Thrown)
            else if n < chars then Parsed(EMPTY.(localtimes := Types(z)[..(n - base) / 6]), Thrown)
            else if n < chars + |z.designations| then Parsed(Meaning(z).(abbreviation := ""), Thrown)
            else Parsed(Meaning(z), Complete)
  {
    hide Int32Of, Int32At, TypesFrom, TimesFrom, GoodIndices, Text, WellFormed;
    hide Encode, EncodeTimes, EncodeTypes, EncodeHeader, Be32;
    var bs, k := Encode(z)[..n], |z.times|;
    var base := HEADER + 5 * k;
    Layout(z);
    if n >= HEADER {
      CutCounts(z, n);
      if base <= n < base + 6 * |z.types| {
        CutTypes(z, n);
      } else if n >= base + 6 * |z.types| {
        CutTables(z, n);
        if n >= base + 6 * |z.types| + |z.designations| {
          SliceOfPrefix(Encode(z), n, base + 6 * |z.types|, base + 6 * |z.types| + |z.designations|);
        }
      }
    }
  }

  lemma CutCounts(z: ZoneFile, n: nat)
    requires WellFormed(z) && HEADER <= n <= |Encode(z)|
    ensures var bs := Encode(z)[..n];
            && bs[..4] == MAGIC && Int32At(bs, 32) == |z.times| && Int32At(bs, 36) == |z.types|
            && Int32At(bs, 40) == |z.designations|
  {
    hide Int32At, Encode, EncodeHeader, WellFormed;
    Layout(z);
    assert Encode(z)[..n][..HEADER] == Encode(z)[..HEADER];
    CountsRead(z, Encode(z)[..n]);
  }

  lemma CutTypes(z: ZoneFile, n: nat)
    requires WellFormed(z)
    requires HEADER + 5 * |z.times| <= n < HEADER + 5 * |z.times| + 6 * |z.types| && n <= |Encode(z)|
    ensures var base := HEADER + 5 * |z.times|;
            TypesFrom(Encode(z)[..n], base, (n - base) / 6) == Types(z)[..(n - base) / 6]
  {
    hide TypesFrom, Encode, EncodeTypes, WellFormed;
    Layout(z);
    var bs, base := Encode(z), HEADER + 5 * |z.times|;
    var c := (n - base) / 6;
    SliceOfPrefix(bs, n, base, base + 6 * c);
    SliceOfSlice(bs, base, 6 * |z.types|, 0, 6 * c);
    TypesReadInPart(z, bs[..n], base, c);
  }

  lemma CutTables(z: ZoneFile, n: nat)
    requires WellFormed(z) && HEADER + 5 * |z.times| + 6 * |z.types| <= n <= |Encode(z)|
    ensures var bs, base := Encode(z)[..n], HEADER + 5 * |z.times|;
            && TimesFrom(bs, HEADER, |z.times|) == z.times && TypesFrom(bs, base, |z.types|) == Types(z)
            && bs[HEADER + 4 * |z.times|..base] == z.indices && GoodIndices(z.indices, |z.types|) == |z.times|
            && Join(z.times, z.indices, Types(z), |z.times|) == Meaning(z).transitions
  {
    hide TypesFrom, TimesFrom, Encode, EncodeTimes, EncodeTypes;
    Layout(z);
    var bs, base := Encode(z), HEADER + 5 * |z.times|;
    SliceOfPrefix(bs, n, HEADER, HEADER + 4 * |z.times|);
    SliceOfPrefix(bs, n, HEADER + 4 * |z.times|, base);
    SliceOfPrefix(bs, n, base, base + 6 * |z.types|);
    TimesRead(z, bs[..n]);
    TypesRead(z, bs[..n], base);
  }
}
