/** The persistent record: a 2-byte marker `'C','M'` at offset 0, fixed-width SSID and
    password fields, and the opaque application settings blob, together with every write
    path of both drafts of the firmware as a trace of driver calls.

    The offsets are build-time constants from a header that is not part of this model, so
    they are the fields of `Layout`. The two drafts name the credential offsets
    differently: the credential writer uses `MAGIC_LENGTH` and `MAGIC_LENGTH + SSID_LENGTH`,
    while the readers and the disconnect path use `WIFI_OFFSET` and `WIFI_OFFSET + 32`.
    Nothing in the source forces these to agree; `Consistent` states the agreement and is
    required only where a write is read back. */
module Record {
  import opened Eeprom

  datatype Layout = Layout(
    magicLength: nat,     // MAGIC_LENGTH
    ssidLength: nat,      // SSID_LENGTH
    passwordLength: nat,  // PASSWORD_LENGTH
    wifiOffset: nat,      // WIFI_OFFSET
    configOffset: nat,    // CONFIG_OFFSET
    configSize: nat,      // configSize
    size: nat)            // bytes of storage reserved by EEPROM.begin

  /** The literal distance from `WIFI_OFFSET` to the password field used by the readers
      and by `handlePostDisconnect`. */
  const PasswordGap: nat := 32

  /** Field widths of the older draft, which hard-codes `char ssid[32]`,
      `char password[64]` and `char magic[2]`. */
  const DraftSsidLength: nat := 32
  const DraftPasswordLength: nat := 64
  const DraftMagicLength: nat := 2

  const CharC: Byte := 67
  const CharM: Byte := 77

  /** `[a, a + an)` and `[b, b + bn)` share no cell. */
  predicate Apart(a: nat, an: nat, b: nat, bn: nat)
  {
    a + an <= b || b + bn <= a
  }

  /** A layout the current draft can run on: the marker array holds its two initialisers,
      the buffers are proper C arrays, and every field either draft touches lies inside
      the storage area. */
  predicate Valid(l: Layout)
  {
    && l.magicLength >= 2
    && l.ssidLength >= 1 && l.passwordLength >= 1
    && l.magicLength + l.ssidLength + l.passwordLength <= l.size
    && l.wifiOffset + l.ssidLength <= l.size
    && l.wifiOffset + PasswordGap + l.passwordLength <= l.size
    && l.configOffset + l.configSize <= l.size
  }

  /** A layout the older draft can run on. */
  predicate DraftValid(l: Layout)
  {
    && DraftMagicLength <= l.size
    && l.wifiOffset + PasswordGap + DraftPasswordLength <= l.size
    && l.configOffset + l.configSize <= l.size
  }

  /** The two names of the credential offsets denote the same cells. */
  predicate Consistent(l: Layout)
  {
    l.wifiOffset == l.magicLength && l.ssidLength == PasswordGap
  }

  /** Marker, SSID, password and blob (as the readers see them) occupy disjoint cells. */
  predicate Disjoint(l: Layout)
  {
    && Apart(0, l.magicLength, l.wifiOffset, l.ssidLength)
    && Apart(0, l.magicLength, l.wifiOffset + PasswordGap, l.passwordLength)
    && Apart(0, l.magicLength, l.configOffset, l.configSize)
    && Apart(l.wifiOffset, l.ssidLength, l.wifiOffset + PasswordGap, l.passwordLength)
    && Apart(l.wifiOffset, l.ssidLength, l.configOffset, l.configSize)
    && Apart(l.wifiOffset + PasswordGap, l.passwordLength, l.configOffset, l.configSize)
  }

  /** The same for the older draft's fixed widths. */
  predicate DraftDisjoint(l: Layout)
  {
    && Apart(0, DraftMagicLength, l.wifiOffset, DraftSsidLength)
    && Apart(0, DraftMagicLength, l.wifiOffset + PasswordGap, DraftPasswordLength)
    && Apart(0, DraftMagicLength, l.configOffset, l.configSize)
    && Apart(l.wifiOffset, DraftSsidLength, l.configOffset, l.configSize)
    && Apart(l.wifiOffset + PasswordGap, DraftPasswordLength, l.configOffset, l.configSize)
  }

  /** `magicBytes[MAGIC_LENGTH] = {'C', 'M'}`: the remaining elements are zero. */
  function Marker(l: Layout): (b: seq<Byte>)
    requires l.magicLength >= 2
    ensures |b| == l.magicLength && b[0] == CharC && b[1] == CharM
  {
    [CharC, CharM] + Zeros(l.magicLength - 2)
  }

  /** `magicBytesEmpty`: all zero. */
  function MarkerEmpty(l: Layout): (b: seq<Byte>)
    ensures |b| == l.magicLength
  {
    Zeros(l.magicLength)
  }

  /** The older draft's `magicBytes[2]`. */
  const DraftMarker: seq<Byte> := [CharC, CharM]

  /** `memcmp(magic, magicBytes, 2) == 0`: only the first two cells are compared. */
  predicate MarkerMatches(mem: seq<Byte>)
    requires |mem| >= 2
  {
    mem[0] == CharC && mem[1] == CharM
  }

  /** `EEPROM.get(WIFI_OFFSET, ssid)` for an `n`-byte buffer. */
  function SsidField(l: Layout, mem: seq<Byte>, n: nat): (s: seq<Byte>)
    requires l.wifiOffset + n <= |mem|
    ensures |s| == n
  {
    mem[l.wifiOffset..l.wifiOffset + n]
  }

  /** `EEPROM.get(WIFI_OFFSET + 32, password)` for an `n`-byte buffer. */
  function PasswordField(l: Layout, mem: seq<Byte>, n: nat): (s: seq<Byte>)
    requires l.wifiOffset + PasswordGap + n <= |mem|
    ensures |s| == n
  {
    mem[l.wifiOffset + PasswordGap..l.wifiOffset + PasswordGap + n]
  }

  /** The blob `readConfig` copies out. */
  function ConfigBlob(l: Layout, mem: seq<Byte>): (s: seq<Byte>)
    requires l.configOffset + l.configSize <= |mem|
    ensures |s| == l.configSize
  {
    mem[l.configOffset..l.configOffset + l.configSize]
  }

  // ---------------------------------------------------------------- ordering of a trace

  predicate IsMarkerPut(op: Op)
  {
    op.Put? && op.field == MarkerVar
  }

  predicate IsCredentialPut(op: Op)
  {
    op.Put? && (op.field == SsidVar || op.field == PasswordVar)
  }

  /** Every credential write is followed, later in the trace, by a marker write. */
  predicate MarkerLast(ops: seq<Op>)
  {
    forall i :: 0 <= i < |ops| && IsCredentialPut(ops[i]) ==>
      exists j :: i < j < |ops| && IsMarkerPut(ops[j])
  }

  /** The trace ends with a commit, so its writes reach flash. */
  predicate EndsCommitted(ops: seq<Op>)
  {
    |ops| > 0 && ops[|ops| - 1].Commit?
  }

  // ---------------------------------------------------------------- write paths

  /** `storeWifiSettings` followed by `commitChanges`: nothing at all before
      `ConfigManager::begin` has set `memoryInitialized`; otherwise both credentials
      `strncpy`'d to their field widths and written at `MAGIC_LENGTH` and
      `MAGIC_LENGTH + SSID_LENGTH`, then the marker rewritten at 0, then a commit. */
  function StoreWifiSettingsOps(l: Layout, memoryInitialized: bool, ssid: seq<Byte>, password: seq<Byte>): (ops: seq<Op>)
    requires Valid(l)
    ensures OpsFit(ops, l.size)
    ensures !memoryInitialized ==> ops == []
    ensures memoryInitialized ==> MarkerLast(ops) && EndsCommitted(ops)
    ensures memoryInitialized ==>
      && |ops| == 4
      && ops[0] == Put(SsidVar, l.magicLength, StrNCpy(ssid, l.ssidLength))
      && ops[1] == Put(PasswordVar, l.magicLength + l.ssidLength, StrNCpy(password, l.passwordLength))
  {
    if !memoryInitialized then []
    else
      var ops := [Put(SsidVar, l.magicLength, StrNCpy(ssid, l.ssidLength)),
                  Put(PasswordVar, l.magicLength + l.ssidLength, StrNCpy(password, l.passwordLength))]
                 + CommitChangesOps(l);
      assert IsMarkerPut(ops[2]);
      ops
  }

  /** `commitChanges`: the marker rewritten at 0, then a commit. */
  function CommitChangesOps(l: Layout): (ops: seq<Op>)
    requires Valid(l)
    ensures OpsFit(ops, l.size) && EndsCommitted(ops)
    ensures |ops| == 2 && IsMarkerPut(ops[0]) && ops[0].addr == 0 && ops[0].data == Marker(l)
  {
    [Put(MarkerVar, 0, Marker(l)), Commit]
  }

  /** `handlePostDisconnect`: the marker, then zero-filled SSID and password fields at
      `WIFI_OFFSET` and `WIFI_OFFSET + 32`, then a commit. The marker comes first. */
  function DisconnectOps(l: Layout): (ops: seq<Op>)
    requires Valid(l)
    ensures OpsFit(ops, l.size) && EndsCommitted(ops)
    ensures !MarkerLast(ops)
  {
    var ops := [Put(MarkerVar, 0, Marker(l)),
                Put(SsidVar, l.wifiOffset, Zeros(l.ssidLength)),
                Put(PasswordVar, l.wifiOffset + PasswordGap, Zeros(l.passwordLength)),
                Commit];
    assert IsCredentialPut(ops[2]) && !IsMarkerPut(ops[3]);
    ops
  }

  /** `handleDeleteSettings` as written: the VALID marker `magicBytes` at 0, then a commit. */
  function DeleteSettingsOps(l: Layout): (ops: seq<Op>)
    requires Valid(l)
    ensures OpsFit(ops, l.size) && EndsCommitted(ops)
    ensures forall k :: 0 <= k < |ops| ==> !IsCredentialPut(ops[k]) && !(ops[k].Put? && ops[k].field == ConfigVar)
  {
    [Put(MarkerVar, 0, Marker(l)), Commit]
  }

  /** `handleDeleteSettings` as evidently intended: `magicBytesEmpty` at 0, then a commit. */
  function DeleteSettingsClearedOps(l: Layout): (ops: seq<Op>)
    requires Valid(l)
    ensures OpsFit(ops, l.size) && EndsCommitted(ops)
    ensures forall k :: 0 <= k < |ops| ==> !IsCredentialPut(ops[k]) && !(ops[k].Put? && ops[k].field == ConfigVar)
  {
    [Put(MarkerVar, 0, MarkerEmpty(l)), Commit]
  }

  /** The marker-mismatch branch of the current `setup`: the marker, the two credential
      buffers as they happen to be, then `writeConfig` with the in-memory blob. */
  function FirstBootOps(l: Layout, ssidBuf: seq<Byte>, passwordBuf: seq<Byte>, config: seq<Byte>): (ops: seq<Op>)
    requires Valid(l)
    requires |ssidBuf| == l.ssidLength && |passwordBuf| == l.passwordLength && |config| == l.configSize
    ensures OpsFit(ops, l.size) && EndsCommitted(ops)
    ensures !MarkerLast(ops)
  {
    var ops := [Put(MarkerVar, 0, Marker(l)),
                Put(SsidVar, l.wifiOffset, ssidBuf),
                Put(PasswordVar, l.wifiOffset + PasswordGap, passwordBuf)]
               + WriteConfigOps(l.configOffset, config);
    assert IsCredentialPut(ops[2]) && !IsMarkerPut(ops[3]) && !IsMarkerPut(ops[4]);
    ops
  }

  /** `handleAPPost` of the older draft after its SSID check: the marker first, then the
      credentials `strncpy`'d to 32 and 64 bytes at `WIFI_OFFSET` and `WIFI_OFFSET + 32`,
      then a commit. */
  function DraftApPostOps(l: Layout, ssid: seq<Byte>, password: seq<Byte>): (ops: seq<Op>)
    requires DraftValid(l)
    ensures OpsFit(ops, l.size) && EndsCommitted(ops)
    ensures !MarkerLast(ops)
  {
    var s := StrNCpy(ssid, DraftSsidLength);
    var p := StrNCpy(password, DraftPasswordLength);
    assert |s| == 32 && |p| == 64;
    assert OpsFit([Put(MarkerVar, 0, DraftMarker), Put(SsidVar, l.wifiOffset, s), Put(PasswordVar, l.wifiOffset + PasswordGap, p), Commit], l.size);
    var ops := [Put(MarkerVar, 0, DraftMarker),
                Put(SsidVar, l.wifiOffset, s),
                Put(PasswordVar, l.wifiOffset + PasswordGap, p),
                Commit];
    assert IsCredentialPut(ops[2]) && !IsMarkerPut(ops[3]);
    ops
  }

  // ---------------------------------------------------------------- reading back

  /** `[o1, Commit]` writes `o1` and flushes it. */
  lemma Apply2(e: Image, o1: Op) returns (c: seq<Byte>)
    requires WellFormed(e) && o1.Put? && o1.addr + |o1.data| <= |e.cache|
    ensures OpsFit([o1, Commit], |e.cache|)
    ensures c == PutBytes(e.cache, o1.addr, o1.data)
    ensures Apply(e, [o1, Commit]) == Image(c, c)
  {
    c := PutBytes(e.cache, o1.addr, o1.data);
    assert [o1, Commit] == [o1] + [Commit];
    ApplyCons(e, o1, [Commit]);
    var e1 := Step(e, o1);
    ApplyCons(e1, Commit, []);
  }

  /** `[o1, o2, o3, Commit]` writes the three in order and flushes them. */
  lemma Apply4(e: Image, o1: Op, o2: Op, o3: Op) returns (c: seq<Byte>)
    requires WellFormed(e) && o1.Put? && o2.Put? && o3.Put?
    requires o1.addr + |o1.data| <= |e.cache| && o2.addr + |o2.data| <= |e.cache| && o3.addr + |o3.data| <= |e.cache|
    ensures OpsFit([o1, o2, o3, Commit], |e.cache|)
    ensures c == Put3(e.cache, o1.addr, o1.data, o2.addr, o2.data, o3.addr, o3.data)
    ensures Apply(e, [o1] + [o2, o3, Commit]) == Image(c, c)
  {
    var e1 := Step(e, o1);
    var e2 := Step(e1, o2);
    var e3 := Step(e2, o3);
    c := e3.cache;
    assert [o1, o2, o3, Commit] == [o1] + [o2, o3, Commit];
    ApplyCons(e, o1, [o2, o3, Commit]);
    assert [o2, o3, Commit] == [o2] + [o3, Commit];
    ApplyCons(e1, o2, [o3, Commit]);
    assert [o3, Commit] == [o3] + [Commit];
    ApplyCons(e2, o3, [Commit]);
    ApplyCons(e3, Commit, []);
  }

  /** `[o1, o2, o3, o4, Commit]` writes the four in order and flushes them. */
  lemma Apply5(e: Image, o1: Op, o2: Op, o3: Op, o4: Op) returns (c: seq<Byte>)
    requires WellFormed(e) && o1.Put? && o2.Put? && o3.Put? && o4.Put?
    requires o1.addr + |o1.data| <= |e.cache| && o2.addr + |o2.data| <= |e.cache|
    requires o3.addr + |o3.data| <= |e.cache| && o4.addr + |o4.data| <= |e.cache|
    ensures c == Put3(PutBytes(e.cache, o1.addr, o1.data), o2.addr, o2.data, o3.addr, o3.data, o4.addr, o4.data)
    ensures OpsFit([o1] + [o2, o3, o4, Commit], |e.cache|)
    ensures Apply(e, [o1] + [o2, o3, o4, Commit]) == Image(c, c)
  {
    var e1 := Step(e, o1);
    c := Apply4(e1, o2, o3, o4);
    assert OpsFit([o1] + [o2, o3, o4, Commit], |e.cache|);
    ApplyCons(e, o1, [o2, o3, o4, Commit]);
  }

  /** The bytes just written read back. */
  lemma SliceWritten(mem: seq<Byte>, addr: nat, data: seq<Byte>)
    requires addr + |data| <= |mem|
    ensures PutBytes(mem, addr, data)[addr..addr + |data|] == data
  {
    var r := PutBytes(mem, addr, data);
    PutBytesCells(mem, addr, data);
    var sl := r[addr..addr + |data|];
    assert forall i :: 0 <= i < |data| ==> sl[i] == r[addr + i];
  }

  /** A region apart from the write keeps its bytes. */
  lemma SliceKept(mem: seq<Byte>, addr: nat, data: seq<Byte>, a: nat, n: nat)
    requires addr + |data| <= |mem| && a + n <= |mem| && Apart(addr, |data|, a, n)
    ensures PutBytes(mem, addr, data)[a..a + n] == mem[a..a + n]
  {
    var r := PutBytes(mem, addr, data);
    PutBytesCells(mem, addr, data);
    var sl := r[a..a + n];
    assert forall i :: 0 <= i < n ==> sl[i] == r[a + i] == mem[a + i];
  }

  /** Writing a marker at 0 makes the marker test succeed. */
  lemma MarkerWritten(mem: seq<Byte>, data: seq<Byte>)
    requires |data| <= |mem| && |data| >= 2 && data[0] == CharC && data[1] == CharM
    ensures MarkerMatches(PutBytes(mem, 0, data))
  {
    PutBytesCells(mem, 0, data);
    assert PutBytes(mem, 0, data)[0 + 0] == data[0];
    assert PutBytes(mem, 0, data)[0 + 1] == data[1];
  }

  /** A write apart from the first two cells leaves the marker test as it was. */
  lemma MarkerKept(mem: seq<Byte>, addr: nat, data: seq<Byte>)
    requires addr + |data| <= |mem| && |mem| >= 2 && Apart(addr, |data|, 0, 2)
    ensures MarkerMatches(PutBytes(mem, addr, data)) == MarkerMatches(mem)
  {
    PutBytesCells(mem, addr, data);
  }

  /** Three writes in a row. */
  function Put3(mem: seq<Byte>, a1: nat, d1: seq<Byte>, a2: nat, d2: seq<Byte>, a3: nat, d3: seq<Byte>): (c: seq<Byte>)
    requires a1 + |d1| <= |mem| && a2 + |d2| <= |mem| && a3 + |d3| <= |mem|
    ensures |c| == |mem|
  {
    PutBytes(PutBytes(PutBytes(mem, a1, d1), a2, d2), a3, d3)
  }

  /** After three writes, the last one reads back. */
  lemma Put3Last(mem: seq<Byte>, a1: nat, d1: seq<Byte>, a2: nat, d2: seq<Byte>, a3: nat, d3: seq<Byte>)
    requires a1 + |d1| <= |mem| && a2 + |d2| <= |mem| && a3 + |d3| <= |mem|
    ensures Put3(mem, a1, d1, a2, d2, a3, d3)[a3..a3 + |d3|] == d3
  {
    SliceWritten(PutBytes(PutBytes(mem, a1, d1), a2, d2), a3, d3);
  }

  /** The middle one reads back when the last one is apart from it. */
  lemma Put3Middle(mem: seq<Byte>, a1: nat, d1: seq<Byte>, a2: nat, d2: seq<Byte>, a3: nat, d3: seq<Byte>)
    requires a1 + |d1| <= |mem| && a2 + |d2| <= |mem| && a3 + |d3| <= |mem|
    requires Apart(a3, |d3|, a2, |d2|)
    ensures Put3(mem, a1, d1, a2, d2, a3, d3)[a2..a2 + |d2|] == d2
  {
    var c1 := PutBytes(mem, a1, d1);
    SliceWritten(c1, a2, d2);
    SliceKept(PutBytes(c1, a2, d2), a3, d3, a2, |d2|);
  }

  /** The first one reads back when both later ones are apart from it. */
  lemma Put3First(mem: seq<Byte>, a1: nat, d1: seq<Byte>, a2: nat, d2: seq<Byte>, a3: nat, d3: seq<Byte>)
    requires a1 + |d1| <= |mem| && a2 + |d2| <= |mem| && a3 + |d3| <= |mem|
    requires Apart(a2, |d2|, a1, |d1|) && Apart(a3, |d3|, a1, |d1|)
    ensures Put3(mem, a1, d1, a2, d2, a3, d3)[a1..a1 + |d1|] == d1
  {
    var c1 := PutBytes(mem, a1, d1);
    SliceWritten(mem, a1, d1);
    SliceKept(c1, a2, d2, a1, |d1|);
    SliceKept(PutBytes(c1, a2, d2), a3, d3, a1, |d1|);
  }

  /** A region apart from all three writes keeps its bytes. */
  lemma Put3Kept(mem: seq<Byte>, a1: nat, d1: seq<Byte>, a2: nat, d2: seq<Byte>, a3: nat, d3: seq<Byte>, a: nat, n: nat)
    requires a1 + |d1| <= |mem| && a2 + |d2| <= |mem| && a3 + |d3| <= |mem| && a + n <= |mem|
    requires Apart(a1, |d1|, a, n) && Apart(a2, |d2|, a, n) && Apart(a3, |d3|, a, n)
    ensures Put3(mem, a1, d1, a2, d2, a3, d3)[a..a + n] == mem[a..a + n]
  {
    var c1 := PutBytes(mem, a1, d1);
    SliceKept(mem, a1, d1, a, n);
    SliceKept(c1, a2, d2, a, n);
    SliceKept(PutBytes(c1, a2, d2), a3, d3, a, n);
  }

  /** A memory that starts with a marker passes the marker test. */
  lemma MarkerFromPrefix(m: seq<Byte>, marker: seq<Byte>)
    requires 2 <= |marker| <= |m| && m[0..|marker|] == marker && marker[0] == CharC && marker[1] == CharM
    ensures MarkerMatches(m)
  {
    assert m[0] == m[0..|marker|][0] && m[1] == m[0..|marker|][1];
  }

  /** Two memories that agree on their first two cells agree on the marker test. */
  lemma MarkerFromSlice(m1: seq<Byte>, m2: seq<Byte>)
    requires |m1| >= 2 && |m2| >= 2 && m1[0..2] == m2[0..2]
    ensures MarkerMatches(m1) == MarkerMatches(m2)
  {
    assert m1[0] == m1[0..2][0] && m1[1] == m1[0..2][1];
    assert m2[0] == m2[0..2][0] && m2[1] == m2[0..2][1];
  }

  /** Credentials `s`, `p` written where the current writer puts them, then the marker,
      then a commit, read back where the readers look: when the two names of the offsets
      agree, the readers find exactly `s` and `p` under a valid marker. */
  lemma CredentialsThenMarkerReadBack(l: Layout, mem: seq<Byte>, s: seq<Byte>, p: seq<Byte>)
    requires Valid(l) && Consistent(l) && Disjoint(l) && |mem| == l.size
    requires |s| == l.ssidLength && |p| == l.passwordLength
    ensures var ops := [Put(SsidVar, l.magicLength, s), Put(PasswordVar, l.magicLength + l.ssidLength, p),
                        Put(MarkerVar, 0, Marker(l)), Commit];
      && OpsFit(ops, l.size)
      && var f := Apply(Loaded(mem), ops).flash;
         && |f| == l.size && MarkerMatches(f)
         && SsidField(l, f, l.ssidLength) == s
         && PasswordField(l, f, l.passwordLength) == p
         && ConfigBlob(l, f) == ConfigBlob(l, mem)
  {
    var w := l.wifiOffset;
    var o1, o2, o3 := Put(SsidVar, w, s), Put(PasswordVar, w + PasswordGap, p), Put(MarkerVar, 0, Marker(l));
    assert [o1, o2, o3, Commit] == [o1] + [o2, o3, Commit];
    var f := Apply4(Loaded(mem), o1, o2, o3);
    var c := CredentialsFirstRecord(l, mem, s, p);
  }

  /** The record the three credentials-first writes leave in the RAM image. */
  lemma CredentialsFirstRecord(l: Layout, mem: seq<Byte>, s: seq<Byte>, p: seq<Byte>) returns (c: seq<Byte>)
    requires Valid(l) && Consistent(l) && Disjoint(l) && |mem| == l.size
    requires |s| == l.ssidLength && |p| == l.passwordLength
    ensures c == Put3(mem, l.wifiOffset, s, l.wifiOffset + PasswordGap, p, 0, Marker(l))
    ensures MarkerMatches(c)
    ensures SsidField(l, c, l.ssidLength) == s
    ensures PasswordField(l, c, l.passwordLength) == p
    ensures ConfigBlob(l, c) == ConfigBlob(l, mem)
  {
    var w := l.wifiOffset;
    c := Put3(mem, w, s, w + PasswordGap, p, 0, Marker(l));
    Put3Last(mem, w, s, w + PasswordGap, p, 0, Marker(l));
    MarkerFromPrefix(c, Marker(l));
    Put3First(mem, w, s, w + PasswordGap, p, 0, Marker(l));
    Put3Middle(mem, w, s, w + PasswordGap, p, 0, Marker(l));
    Put3Kept(mem, w, s, w + PasswordGap, p, 0, Marker(l), l.configOffset, l.configSize);
  }


  /** A marker, then credentials `s`, `p` at `WIFI_OFFSET` and `WIFI_OFFSET + 32`, then a
      commit: the readers find exactly `s` and `p` under a valid marker, and the blob is
      untouched, when the regions are apart. */
  lemma MarkerThenCredentialsReadBack(l: Layout, mem: seq<Byte>, marker: seq<Byte>, s: seq<Byte>, p: seq<Byte>)
    requires |mem| == l.size && |marker| >= 2 && marker[0] == CharC && marker[1] == CharM
    requires |marker| <= l.size && l.wifiOffset + |s| <= l.size && l.wifiOffset + PasswordGap + |p| <= l.size
    requires l.configOffset + l.configSize <= l.size
    requires Apart(0, |marker|, l.wifiOffset, |s|) && Apart(0, |marker|, l.wifiOffset + PasswordGap, |p|)
    requires Apart(0, |marker|, l.configOffset, l.configSize)
    requires Apart(l.wifiOffset, |s|, l.wifiOffset + PasswordGap, |p|)
    requires Apart(l.wifiOffset, |s|, l.configOffset, l.configSize)
    requires Apart(l.wifiOffset + PasswordGap, |p|, l.configOffset, l.configSize)
    ensures var ops := [Put(MarkerVar, 0, marker), Put(SsidVar, l.wifiOffset, s), Put(PasswordVar, l.wifiOffset + PasswordGap, p), Commit];
      && OpsFit(ops, l.size)
      && var f := Apply(Loaded(mem), ops).flash;
         && |f| == l.size && MarkerMatches(f)
         && SsidField(l, f, |s|) == s
         && PasswordField(l, f, |p|) == p
         && ConfigBlob(l, f) == ConfigBlob(l, mem)
  {
    var w := l.wifiOffset;
    var o1, o2, o3 := Put(MarkerVar, 0, marker), Put(SsidVar, w, s), Put(PasswordVar, w + PasswordGap, p);
    assert [o1, o2, o3, Commit] == [o1] + [o2, o3, Commit];
    var f := Apply4(Loaded(mem), o1, o2, o3);
    var c := MarkerFirstRecord(l, mem, marker, s, p);
  }

  /** The record the three marker-first writes leave in the RAM image. */
  lemma MarkerFirstRecord(l: Layout, mem: seq<Byte>, marker: seq<Byte>, s: seq<Byte>, p: seq<Byte>) returns (c: seq<Byte>)
    requires |mem| == l.size && |marker| >= 2 && marker[0] == CharC && marker[1] == CharM
    requires |marker| <= l.size && l.wifiOffset + |s| <= l.size && l.wifiOffset + PasswordGap + |p| <= l.size
    requires l.configOffset + l.configSize <= l.size
    requires Apart(0, |marker|, l.wifiOffset, |s|) && Apart(0, |marker|, l.wifiOffset + PasswordGap, |p|)
    requires Apart(0, |marker|, l.configOffset, l.configSize)
    requires Apart(l.wifiOffset, |s|, l.wifiOffset + PasswordGap, |p|)
    requires Apart(l.wifiOffset, |s|, l.configOffset, l.configSize)
    requires Apart(l.wifiOffset + PasswordGap, |p|, l.configOffset, l.configSize)
    ensures c == Put3(mem, 0, marker, l.wifiOffset, s, l.wifiOffset + PasswordGap, p)
    ensures MarkerMatches(c)
    ensures SsidField(l, c, |s|) == s
    ensures PasswordField(l, c, |p|) == p
    ensures ConfigBlob(l, c) == ConfigBlob(l, mem)
  {
    var w := l.wifiOffset;
    c := Put3(mem, 0, marker, w, s, w + PasswordGap, p);
    Put3First(mem, 0, marker, w, s, w + PasswordGap, p);
    MarkerFromPrefix(c, marker);
    Put3Middle(mem, 0, marker, w, s, w + PasswordGap, p);
    Put3Last(mem, 0, marker, w, s, w + PasswordGap, p);
    Put3Kept(mem, 0, marker, w, s, w + PasswordGap, p, l.configOffset, l.configSize);
  }



  /** The record a boot finds after the current `storeWifiSettings` path, when the two names
      of the credential offsets agree: marked valid, the `strncpy`'d credentials in the
      fields the readers use, and the blob untouched. */
  lemma StoreWifiSettingsReadBack(l: Layout, mem: seq<Byte>, ssid: seq<Byte>, password: seq<Byte>)
    requires Valid(l) && Consistent(l) && Disjoint(l) && |mem| == l.size
    ensures var f := Apply(Loaded(mem), StoreWifiSettingsOps(l, true, ssid, password)).flash;
      && |f| == l.size && MarkerMatches(f)
      && SsidField(l, f, l.ssidLength) == StrNCpy(ssid, l.ssidLength)
      && PasswordField(l, f, l.passwordLength) == StrNCpy(password, l.passwordLength)
      && ConfigBlob(l, f) == ConfigBlob(l, mem)
  {
    StoreWifiSettingsShape(l, ssid, password);
    CredentialsThenMarkerReadBack(l, mem, StrNCpy(ssid, l.ssidLength), StrNCpy(password, l.passwordLength));
  }

  lemma StoreWifiSettingsShape(l: Layout, ssid: seq<Byte>, password: seq<Byte>)
    requires Valid(l)
    ensures StoreWifiSettingsOps(l, true, ssid, password) ==
      [Put(SsidVar, l.magicLength, StrNCpy(ssid, l.ssidLength)),
       Put(PasswordVar, l.magicLength + l.ssidLength, StrNCpy(password, l.passwordLength)),
       Put(MarkerVar, 0, Marker(l)), Commit]
  {
  }

  /** The record after the older draft's `handleAPPost`: marked valid, credentials
      `strncpy`'d to 32 and 64 bytes where the older draft's boot reads them, blob
      untouched. */
  lemma DraftApPostReadBack(l: Layout, mem: seq<Byte>, ssid: seq<Byte>, password: seq<Byte>)
    requires DraftValid(l) && DraftDisjoint(l) && |mem| == l.size
    ensures var f := Apply(Loaded(mem), DraftApPostOps(l, ssid, password)).flash;
      && |f| == l.size && MarkerMatches(f)
      && SsidField(l, f, DraftSsidLength) == StrNCpy(ssid, DraftSsidLength)
      && PasswordField(l, f, DraftPasswordLength) == StrNCpy(password, DraftPasswordLength)
      && ConfigBlob(l, f) == ConfigBlob(l, mem)
  {
    DraftApPostShape(l, ssid, password);
    MarkerThenCredentialsReadBack(l, mem, DraftMarker, StrNCpy(ssid, DraftSsidLength), StrNCpy(password, DraftPasswordLength));
  }

  lemma DraftApPostShape(l: Layout, ssid: seq<Byte>, password: seq<Byte>)
    requires DraftValid(l)
    ensures DraftApPostOps(l, ssid, password) ==
      [Put(MarkerVar, 0, DraftMarker), Put(SsidVar, l.wifiOffset, StrNCpy(ssid, DraftSsidLength)),
       Put(PasswordVar, l.wifiOffset + PasswordGap, StrNCpy(password, DraftPasswordLength)), Commit]
  {
  }

  /** The record after `handlePostDisconnect`: still marked valid, both credential fields
      zero, blob untouched. */
  lemma DisconnectReadBack(l: Layout, mem: seq<Byte>)
    requires Valid(l) && Disjoint(l) && |mem| == l.size
    ensures var f := Apply(Loaded(mem), DisconnectOps(l)).flash;
      && |f| == l.size && MarkerMatches(f)
      && SsidField(l, f, l.ssidLength) == Zeros(l.ssidLength)
      && PasswordField(l, f, l.passwordLength) == Zeros(l.passwordLength)
      && ConfigBlob(l, f) == ConfigBlob(l, mem)
  {
    MarkerThenCredentialsReadBack(l, mem, Marker(l), Zeros(l.ssidLength), Zeros(l.passwordLength));
  }

  /** The record after the marker-mismatch branch of the current `setup`: marked valid,
      with whatever the two stack buffers held in the credential fields and the in-memory
      blob in the blob field. */
  lemma FirstBootReadBack(l: Layout, mem: seq<Byte>, ssidBuf: seq<Byte>, passwordBuf: seq<Byte>, config: seq<Byte>)
    requires Valid(l) && Disjoint(l) && |mem| == l.size
    requires |ssidBuf| == l.ssidLength && |passwordBuf| == l.passwordLength && |config| == l.configSize
    ensures var f := Apply(Loaded(mem), FirstBootOps(l, ssidBuf, passwordBuf, config)).flash;
      && |f| == l.size && MarkerMatches(f)
      && SsidField(l, f, l.ssidLength) == ssidBuf
      && PasswordField(l, f, l.passwordLength) == passwordBuf
      && ConfigBlob(l, f) == config
  {
    FirstBootShape(l, ssidBuf, passwordBuf, config);
    var w, co := l.wifiOffset, l.configOffset;
    var o1, o2, o3 := Put(MarkerVar, 0, Marker(l)), Put(SsidVar, w, ssidBuf), Put(PasswordVar, w + PasswordGap, passwordBuf);
    var f := Apply5(Loaded(mem), o1, o2, o3, Put(ConfigVar, co, config));
    var c := FirstBootRecord(l, mem, Marker(l), ssidBuf, passwordBuf, config);
  }

  /** The record the four first-boot writes leave in the RAM image. */
  lemma FirstBootRecord(l: Layout, mem: seq<Byte>, marker: seq<Byte>, s: seq<Byte>, p: seq<Byte>, config: seq<Byte>) returns (c: seq<Byte>)
    requires |mem| == l.size && 2 <= |marker| <= l.size && marker[0] == CharC && marker[1] == CharM
    requires l.wifiOffset + |s| <= l.size && l.wifiOffset + PasswordGap + |p| <= l.size
    requires |config| == l.configSize && l.configOffset + l.configSize <= l.size
    requires Apart(l.wifiOffset, |s|, 0, 2) && Apart(l.wifiOffset + PasswordGap, |p|, 0, 2) && Apart(l.configOffset, l.configSize, 0, 2)
    requires Apart(l.wifiOffset + PasswordGap, |p|, l.wifiOffset, |s|)
    requires Apart(l.configOffset, l.configSize, l.wifiOffset, |s|)
    requires Apart(l.configOffset, l.configSize, l.wifiOffset + PasswordGap, |p|)
    ensures c == Put3(PutBytes(mem, 0, marker), l.wifiOffset, s, l.wifiOffset + PasswordGap, p, l.configOffset, config)
    ensures MarkerMatches(c)
    ensures SsidField(l, c, |s|) == s
    ensures PasswordField(l, c, |p|) == p
    ensures ConfigBlob(l, c) == config
  {
    var w, co := l.wifiOffset, l.configOffset;
    var c1 := PutBytes(mem, 0, marker);
    c := Put3(c1, w, s, w + PasswordGap, p, co, config);
    MarkerUnderPut3(mem, marker, w, s, w + PasswordGap, p, co, config);
    Put3First(c1, w, s, w + PasswordGap, p, co, config);
    Put3Middle(c1, w, s, w + PasswordGap, p, co, config);
    Put3Last(c1, w, s, w + PasswordGap, p, co, config);
  }

  /** A marker written first survives three writes that keep off its first two cells. */
  lemma MarkerUnderPut3(mem: seq<Byte>, marker: seq<Byte>, a1: nat, d1: seq<Byte>, a2: nat, d2: seq<Byte>, a3: nat, d3: seq<Byte>)
    requires 2 <= |marker| <= |mem| && marker[0] == CharC && marker[1] == CharM
    requires a1 + |d1| <= |mem| && a2 + |d2| <= |mem| && a3 + |d3| <= |mem|
    requires Apart(a1, |d1|, 0, 2) && Apart(a2, |d2|, 0, 2) && Apart(a3, |d3|, 0, 2)
    ensures MarkerMatches(Put3(PutBytes(mem, 0, marker), a1, d1, a2, d2, a3, d3))
  {
    var c1 := PutBytes(mem, 0, marker);
    SliceWritten(mem, 0, marker);
    MarkerFromPrefix(c1, marker);
    Put3Kept(c1, a1, d1, a2, d2, a3, d3, 0, 2);
    MarkerFromSlice(Put3(c1, a1, d1, a2, d2, a3, d3), c1);
  }




  lemma FirstBootShape(l: Layout, ssidBuf: seq<Byte>, passwordBuf: seq<Byte>, config: seq<Byte>)
    requires Valid(l)
    requires |ssidBuf| == l.ssidLength && |passwordBuf| == l.passwordLength && |config| == l.configSize
    ensures FirstBootOps(l, ssidBuf, passwordBuf, config) ==
      [Put(MarkerVar, 0, Marker(l))] + [Put(SsidVar, l.wifiOffset, ssidBuf), Put(PasswordVar, l.wifiOffset + PasswordGap, passwordBuf),
                                        Put(ConfigVar, l.configOffset, config), Commit]
  {
  }

  /** The record after `handleDeleteSettings` as written: the marker still matches and
      every other cell, credentials included, keeps its value. */
  lemma DeleteSettingsReadBack(l: Layout, mem: seq<Byte>)
    requires Valid(l) && |mem| == l.size
    ensures var f := Apply(Loaded(mem), DeleteSettingsOps(l)).flash;
      && |f| == l.size && MarkerMatches(f)
      && forall i :: l.magicLength <= i < l.size ==> f[i] == mem[i]
  {
    var c1 := Apply2(Loaded(mem), Put(MarkerVar, 0, Marker(l)));
    PutBytesCells(mem, 0, Marker(l));
    MarkerWritten(mem, Marker(l));
  }

  /** The record after `handleDeleteSettings` as evidently intended: the marker no longer
      matches, so the next boot treats the record as absent. */
  lemma DeleteSettingsClearedReadBack(l: Layout, mem: seq<Byte>)
    requires Valid(l) && |mem| == l.size
    ensures var f := Apply(Loaded(mem), DeleteSettingsClearedOps(l)).flash;
      && |f| == l.size && !MarkerMatches(f)
      && forall i :: l.magicLength <= i < l.size ==> f[i] == mem[i]
  {
    var c1 := Apply2(Loaded(mem), Put(MarkerVar, 0, MarkerEmpty(l)));
    PutBytesCells(mem, 0, MarkerEmpty(l));
    assert c1[0 + 0] == MarkerEmpty(l)[0] == NUL;
  }

  /** The record after `writeConfig`: the blob is the new one and nothing else changes, so
      the marker keeps whatever state it had. */
  lemma WriteConfigReadBack(l: Layout, mem: seq<Byte>, config: seq<Byte>)
    requires Valid(l) && Disjoint(l) && |mem| == l.size && |config| == l.configSize
    ensures var f := Apply(Loaded(mem), WriteConfigOps(l.configOffset, config)).flash;
      && |f| == l.size
      && ConfigBlob(l, f) == config
      && (MarkerMatches(f) <==> MarkerMatches(mem))
      && SsidField(l, f, l.ssidLength) == SsidField(l, mem, l.ssidLength)
      && PasswordField(l, f, l.passwordLength) == PasswordField(l, mem, l.passwordLength)
  {
    var ops := WriteConfigOps(l.configOffset, config);
    var c1 := Apply2(Loaded(mem), Put(ConfigVar, l.configOffset, config));
    MarkerKept(mem, l.configOffset, config);
    SliceWritten(mem, l.configOffset, config);
    SliceKept(mem, l.configOffset, config, l.wifiOffset, l.ssidLength);
    SliceKept(mem, l.configOffset, config, l.wifiOffset + PasswordGap, l.passwordLength);
  }
}
