/** From the bytes of a time zone file to the round trip through local time. */
module ZoneFileRoundTrip {
  import opened CInt
  import opened UtcTime
  import opened Zone
  import opened ZoneRoundTrip
  import F = TzFile

  /** What section 3.2 of RFC 8536 asks of the types, beyond the reader's own needs. */
  ghost predicate HasTypes(z: F.ZoneFile) {
    |z.types| > 0 && forall r :: r in z.types ==> r.desigidx <= |z.designations|
  }

  ghost function UtOff(z: F.ZoneFile, i: int): int
    requires F.WellFormed(z) && HasTypes(z) && -1 <= i < |z.times|
  {
    if i < 0 then z.types[0].utoff else z.types[z.indices[i]].utoff
  }

  ghost predicate Dst(z: F.ZoneFile, i: int)
    requires F.WellFormed(z) && HasTypes(z) && -1 <= i < |z.times|
  {
    (if i < 0 then z.types[0].isdst else z.types[z.indices[i]].isdst) != 0
  }

  /**
   * A file with transitions more than an hour apart, whose offsets only decrease when daylight saving ends by an
   * hour, gives a zone in which every instant survives the trip to local time and back.
   */
  lemma FileRoundTrip(z: F.ZoneFile, t: int)
    requires F.WellFormed(z) && HasTypes(z)
    requires forall i, j :: 0 <= i < j < |z.times| ==> (z.times[j] as int) - (z.times[i] as int) > 3600
    requires forall i :: 0 <= i < |z.times| && UtOff(z, i) < UtOff(z, i - 1) ==>
               Dst(z, i - 1) && !Dst(z, i) && UtOff(z, i - 1) - UtOff(z, i) == 3600
    requires t >= FIRST_SECOND - INT_MIN
    ensures var data := F.Parse(F.Encode(z)).data;
            IndicesInRange(data) && RoundTrips(data, t)
  {
    hide F.Parse, F.Encode, RoundTrips;
    var data := F.Meaning(z);
    F.ReadsBack(z);
    assert Consistent(data);
    assert forall i :: -1 <= i < |z.times| ==> Offset(data, i) == UtOff(z, i) && IsDst(data, i) == Dst(z, i);
    DstRoundTrip(data, t);
  }

  /** What a C reader takes from a string: everything before the first NUL. */
  function CString(s: string): string {
    if s == "" || s[0] == '\0' then "" else [s[0]] + CString(s[1..])
  }

  lemma {:induction false} CStringOf(name: string, rest: string)
    requires '\0' !in name
    ensures CString(name + "\0" + rest) == name
  {
    var s := name + "\0" + rest;
    if name != "" {
      assert s[1..] == name[1..] + "\0" + rest;
      CStringOf(name[1..], rest);
    }
  }

  /** The zone of a local time is the designation that the file gives the type in force, up to its NUL. */
  lemma ZoneIsDesignation(z: F.ZoneFile, t: int, i: int, name: string)
    requires F.WellFormed(z) && HasTypes(z) && -1 <= i < |z.times|
    requires i >= 0 ==> z.times[i] as int <= t
    requires forall j :: i < j < |z.times| ==> t < z.times[j] as int
    requires forall j, k :: 0 <= j < k < |z.times| ==> (z.times[j] as int) < (z.times[k] as int)
    requires '\0' !in name
    requires var at := (if i < 0 then z.types[0] else z.types[z.indices[i]]).desigidx as int;
             at + |name| < |z.designations| && F.Text(z.designations)[at..at + |name| + 1] == name + "\0"
    ensures var data := F.Parse(F.Encode(z)).data;
            && IndicesInRange(data)
            && CString(LocalTimeOf(data, t).zone) == name && LocalTimeOf(data, t).gmtOff == UtOff(z, i)
  {
    hide F.Parse, F.Encode, UtcFields, CString, Active;
    var data := F.Meaning(z);
    F.ReadsBack(z);
    ActiveAt(data.transitions, t, ByGmt, i);
    DesignationAt(F.Text(z.designations), (if i < 0 then z.types[0] else z.types[z.indices[i]]).desigidx, name);
  }

  lemma DesignationAt(text: string, at: nat, name: string)
    requires '\0' !in name && at + |name| < |text| && text[at..at + |name| + 1] == name + "\0"
    ensures CString(text[at..]) == name
  {
    hide CString;
    var behind := text[at + |name| + 1..];
    assert text[at..] == text[at..at + |name| + 1] + behind;
    CStringOf(name, behind);
  }
}
