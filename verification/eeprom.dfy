/** The emulated EEPROM the firmware persists into, and the C string helpers used to fill
    its fixed-width fields.

    The driver keeps a RAM image (`cache`) of the whole storage area: `EEPROM.put`,
    `EEPROM.write`, `EEPROM.get` and `EEPROM.read` work on that image, and `EEPROM.commit`
    copies it to flash in one go. A write path is therefore modelled as a trace of `Op`s,
    so the order in which the firmware touches the fields stays visible. */
module Eeprom {

  /** One storage cell. */
  type Byte = b: int | 0 <= b < 256

  const NUL: Byte := 0

  /** The C variable a `Put` comes from; it names the role of the bytes, not their address. */
  datatype Field = MarkerVar | SsidVar | PasswordVar | ConfigVar

  /** One driver call of a write path: `EEPROM.put(addr, var)` or `EEPROM.commit()`. */
  datatype Op = Put(field: Field, addr: nat, data: seq<Byte>) | Commit

  /** RAM image and flash contents of the storage area. */
  datatype Image = Image(cache: seq<Byte>, flash: seq<Byte>)

  /** A storage area of `size` cells right after boot: flash loaded into the RAM image. */
  function Loaded(flash: seq<Byte>): (e: Image)
    ensures e.cache == e.flash == flash
  {
    Image(flash, flash)
  }

  /** `n` zero bytes, as left by `char buf[n] = {0}`. */
  function Zeros(n: nat): (z: seq<Byte>)
    ensures |z| == n
    ensures forall i :: 0 <= i < n ==> z[i] == NUL
  {
    if n == 0 then [] else Zeros(n - 1) + [NUL]
  }

  /** The memory after copying `data` to `addr`, one cell at a time. */
  function PutBytes(mem: seq<Byte>, addr: nat, data: seq<Byte>): (r: seq<Byte>)
    requires addr + |data| <= |mem|
    ensures |r| == |mem|
    decreases |data|
  {
    if data == [] then mem else PutBytes(mem[addr := data[0]], addr + 1, data[1..])
  }

  /** Cell by cell: `PutBytes` holds `data` at `addr ..` and the old value elsewhere. */
  lemma {:induction false} PutBytesCells(mem: seq<Byte>, addr: nat, data: seq<Byte>)
    requires addr + |data| <= |mem|
    ensures forall i :: 0 <= i < |data| ==> PutBytes(mem, addr, data)[addr + i] == data[i]
    ensures forall i :: 0 <= i < |mem| && !(addr <= i < addr + |data|) ==> PutBytes(mem, addr, data)[i] == mem[i]
    decreases |data|
  {
    if data != [] {
      var m1 := mem[addr := data[0]];
      var rest := data[1..];
      PutBytesCells(m1, addr + 1, rest);
      var r := PutBytes(mem, addr, data);
      assert r == PutBytes(m1, addr + 1, rest);
      forall i | 0 <= i < |data| ensures r[addr + i] == data[i] {
        if i > 0 {
          assert r[(addr + 1) + (i - 1)] == rest[i - 1];
        }
      }
    }
  }

  /** Every `Put` of the trace lies inside a storage area of `size` cells. */
  predicate OpsFit(ops: seq<Op>, size: nat)
  {
    forall k :: 0 <= k < |ops| && ops[k].Put? ==> ops[k].addr + |ops[k].data| <= size
  }

  predicate WellFormed(e: Image)
  {
    |e.cache| == |e.flash|
  }

  /** The effect of one driver call. */
  function Step(e: Image, op: Op): (r: Image)
    requires WellFormed(e)
    requires op.Put? ==> op.addr + |op.data| <= |e.cache|
    ensures WellFormed(r) && |r.cache| == |e.cache|
    ensures op.Put? ==> r.flash == e.flash
    ensures op.Commit? ==> r.flash == r.cache == e.cache
  {
    match op
    case Put(_, addr, data) => Image(PutBytes(e.cache, addr, data), e.flash)
    case Commit => Image(e.cache, e.cache)
  }

  /** The effect of a whole trace, first call first. */
  function Apply(e: Image, ops: seq<Op>): (r: Image)
    requires WellFormed(e)
    requires OpsFit(ops, |e.cache|)
    ensures WellFormed(r) && |r.cache| == |e.cache|
    decreases |ops|
  {
    if ops == [] then e
    else
      assert ops[0].Put? ==> ops[0].addr + |ops[0].data| <= |e.cache|;
      Apply(Step(e, ops[0]), ops[1..])
  }

  /** Running two traces one after the other is running their concatenation. */
  lemma {:induction false} ApplyConcat(e: Image, a: seq<Op>, b: seq<Op>)
    requires WellFormed(e)
    requires OpsFit(a, |e.cache|) && OpsFit(b, |e.cache|)
    ensures OpsFit(a + b, |e.cache|)
    ensures Apply(e, a + b) == Apply(Apply(e, a), b)
    decreases |a|
  {
    assert OpsFit(a + b, |e.cache|) by {
      forall k | 0 <= k < |a + b| && (a + b)[k].Put?
        ensures (a + b)[k].addr + |(a + b)[k].data| <= |e.cache|
      {
        if k < |a| { assert (a + b)[k] == a[k]; } else { assert (a + b)[k] == b[k - |a|]; }
      }
    }
    if a == [] {
      assert a + b == b;
    } else {
      assert (a + b)[0] == a[0];
      assert (a + b)[1..] == a[1..] + b;
      var e1 := Step(e, a[0]);
      assert OpsFit(a[1..], |e1.cache|) by {
        forall k | 0 <= k < |a[1..]| && a[1..][k].Put?
          ensures a[1..][k].addr + |a[1..][k].data| <= |e1.cache|
        {
          assert a[1..][k] == a[k + 1];
        }
      }
      ApplyConcat(e1, a[1..], b);
    }
  }

  /** A trace of `Put`s closed by one `Commit`: flash ends up equal to the RAM image the
      `Put`s produced. */
  lemma ApplyPutsCommit(e: Image, ops: seq<Op>)
    requires WellFormed(e)
    requires OpsFit(ops, |e.cache|)
    requires |ops| >= 1 && ops[|ops| - 1].Commit?
    ensures Apply(e, ops).flash == Apply(e, ops).cache
  {
    var n := |ops| - 1;
    assert ops == ops[..n] + [Commit];
    assert OpsFit(ops[..n], |e.cache|) by {
      forall k | 0 <= k < n && ops[..n][k].Put? ensures ops[..n][k].addr + |ops[..n][k].data| <= |e.cache| {
        assert ops[..n][k] == ops[k];
      }
    }
    ApplyConcat(e, ops[..n], [Commit]);
    var m := Apply(e, ops[..n]);
    assert Apply(m, [Commit]) == Apply(Step(m, Commit), []);
  }

  /** Running a non-empty trace is running its first call, then the rest. */
  lemma ApplyCons(e: Image, op: Op, rest: seq<Op>)
    requires WellFormed(e)
    requires OpsFit([op] + rest, |e.cache|)
    ensures op.Put? ==> op.addr + |op.data| <= |e.cache|
    ensures OpsFit(rest, |Step(e, op).cache|)
    ensures Apply(e, [op] + rest) == Apply(Step(e, op), rest)
  {
    assert ([op] + rest)[0] == op;
    assert ([op] + rest)[1..] == rest;
    forall k | 0 <= k < |rest| && rest[k].Put? ensures rest[k].addr + |rest[k].data| <= |e.cache| {
      assert ([op] + rest)[k + 1] == rest[k];
    }
  }

  /** A trace with no `Commit` leaves flash untouched: whatever it wrote is lost if the
      device resets before the next commit, in whatever order the fields were written. */
  lemma {:induction false} NoCommitKeepsFlash(e: Image, ops: seq<Op>)
    requires WellFormed(e)
    requires OpsFit(ops, |e.cache|)
    requires forall k :: 0 <= k < |ops| ==> ops[k].Put?
    ensures Apply(e, ops).flash == e.flash
    decreases |ops|
  {
    if ops != [] {
      var e1 := Step(e, ops[0]);
      assert OpsFit(ops[1..], |e1.cache|) by {
        forall k | 0 <= k < |ops[1..]| && ops[1..][k].Put?
          ensures ops[1..][k].addr + |ops[1..][k].data| <= |e1.cache|
        {
          assert ops[1..][k] == ops[k + 1];
        }
      }
      assert forall k :: 0 <= k < |ops[1..]| ==> ops[1..][k] == ops[k + 1];
      NoCommitKeepsFlash(e1, ops[1..]);
    }
  }

  /** A trace whose only `Commit` is its last call: no proper prefix of it changes flash,
      and the whole trace leaves flash equal to the RAM image. */
  lemma TornWriteInvisible(e: Image, ops: seq<Op>, k: nat)
    requires WellFormed(e)
    requires OpsFit(ops, |e.cache|)
    requires |ops| >= 1 && ops[|ops| - 1].Commit?
    requires forall j :: 0 <= j < |ops| - 1 ==> ops[j].Put?
    requires k < |ops|
    ensures OpsFit(ops[..k], |e.cache|)
    ensures Apply(e, ops[..k]).flash == e.flash
  {
    assert forall j :: 0 <= j < k ==> ops[..k][j] == ops[j];
    NoCommitKeepsFlash(e, ops[..k]);
  }

  /** The string a C reader sees in `s`: every byte before the first NUL. */
  function CStr(s: seq<Byte>): (r: seq<Byte>)
    ensures |r| <= |s| && r == s[..|r|]
    ensures forall i :: 0 <= i < |r| ==> r[i] != NUL
    ensures |r| < |s| ==> s[|r|] == NUL
  {
    if s == [] || s[0] == NUL then [] else [s[0]] + CStr(s[1..])
  }

  /** `strncpy(dst, src.c_str(), n)`: copies the bytes of `src` up to its first NUL, at most
      `n` of them, and pads the rest of the `n`-byte destination with NUL. When `src` holds
      `n` or more bytes before its first NUL, nothing terminates the destination. */
  function StrNCpy(src: seq<Byte>, n: nat): (dst: seq<Byte>)
    ensures |dst| == n
    decreases n
  {
    if n == 0 then []
    else if src == [] || src[0] == NUL then Zeros(n)
    else [src[0]] + StrNCpy(src[1..], n - 1)
  }

  /** Cell `i` of the destination is cell `i` of the source while the source has not yet
      reached its terminator, and NUL from there on. */
  lemma {:induction false} StrNCpyCells(src: seq<Byte>, n: nat)
    ensures forall i :: 0 <= i < n ==> StrNCpy(src, n)[i] == (if i < |CStr(src)| then src[i] else NUL)
    decreases n
  {
    if n > 0 && src != [] && src[0] != NUL {
      StrNCpyCells(src[1..], n - 1);
      assert CStr(src) == [src[0]] + CStr(src[1..]);
      var dst := StrNCpy(src, n);
      assert forall i :: 1 <= i < n ==> dst[i] == StrNCpy(src[1..], n - 1)[i - 1];
    }
  }

  /** What a C reader later finds in a field filled by `strncpy`: the source string cut to
      the field width, terminated exactly when it was shorter than the field. */
  lemma StrNCpyReadBack(src: seq<Byte>, n: nat)
    ensures |CStr(src)| < n ==> CStr(StrNCpy(src, n)) == CStr(src)
    ensures |CStr(src)| >= n ==> CStr(StrNCpy(src, n)) == StrNCpy(src, n) == src[..n]
    ensures NUL in StrNCpy(src, n) <==> |CStr(src)| < n
  {
    if |CStr(src)| < n {
      StrNCpyShort(src, n);
    } else {
      StrNCpyLong(src, n);
    }
  }

  /** A source shorter than the field comes back whole, and a NUL follows it. */
  lemma StrNCpyShort(src: seq<Byte>, n: nat)
    requires |CStr(src)| < n
    ensures CStr(StrNCpy(src, n)) == CStr(src)
    ensures StrNCpy(src, n)[|CStr(src)|] == NUL
  {
    var dst := StrNCpy(src, n);
    var c := CStr(src);
    StrNCpyCells(src, n);
    assert forall i :: 0 <= i < |c| ==> dst[i] == c[i];
    CStrAt(dst, |c|);
    assert dst[..|c|] == c;
  }

  /** A source as long as the field fills it with no NUL at all. */
  lemma StrNCpyLong(src: seq<Byte>, n: nat)
    requires |CStr(src)| >= n
    ensures CStr(StrNCpy(src, n)) == StrNCpy(src, n) == src[..n]
    ensures NUL !in StrNCpy(src, n)
  {
    var dst := StrNCpy(src, n);
    var c := CStr(src);
    StrNCpyCells(src, n);
    assert forall i :: 0 <= i < n ==> dst[i] == c[i];
    CStrAt(dst, n);
    assert dst == src[..n];
  }

  /** The C string of `s` ends at the first NUL, wherever that is. */
  lemma CStrAt(s: seq<Byte>, k: nat)
    requires k <= |s|
    requires forall i :: 0 <= i < k ==> s[i] != NUL
    requires k < |s| ==> s[k] == NUL
    ensures CStr(s) == s[..k]
  {
  }

  /** `readConfig`: copies the `size` bytes at `offset` out of the RAM image, one byte at a
      time. */
  method ReadConfig(mem: seq<Byte>, offset: nat, size: nat) returns (config: seq<Byte>)
    requires offset + size <= |mem|
    ensures |config| == size
    ensures forall i :: 0 <= i < size ==> config[i] == mem[offset + i]
    ensures config == mem[offset..offset + size]
  {
    config := [];
    var i := 0;
    while i < size
      invariant i <= size && |config| == i
      invariant forall k :: 0 <= k < i ==> config[k] == mem[offset + k]
    {
      config := config + [mem[offset + i]];
      i := i + 1;
    }
  }

  /** The trace of `writeConfig`: the blob written at `offset`, then a commit. */
  function WriteConfigOps(offset: nat, config: seq<Byte>): (ops: seq<Op>)
    ensures |ops| == 2 && ops[0].Put? && ops[0].field == ConfigVar && ops[1].Commit?
    ensures ops[0].addr == offset && ops[0].data == config
  {
    [Put(ConfigVar, offset, config), Commit]
  }

  /** `writeConfig`: writes the blob byte by byte with `EEPROM.write(offset + i, ...)`, then
      commits. Exactly the cells `offset .. offset + |config|` change, they end up holding
      the blob, and flash matches the RAM image afterwards. */
  method WriteConfig(e: Image, offset: nat, config: seq<Byte>) returns (r: Image)
    requires WellFormed(e)
    requires offset + |config| <= |e.cache|
    ensures WellFormed(r) && |r.cache| == |e.cache|
    ensures forall i :: 0 <= i < |config| ==> r.cache[offset + i] == config[i]
    ensures forall i :: 0 <= i < |e.cache| && !(offset <= i < offset + |config|) ==> r.cache[i] == e.cache[i]
    ensures r.flash == r.cache
    ensures OpsFit(WriteConfigOps(offset, config), |e.cache|)
    ensures r == Apply(e, WriteConfigOps(offset, config))
  {
    var cache := e.cache;
    var i := 0;
    while i < |config|
      invariant i <= |config| && |cache| == |e.cache|
      invariant forall k :: 0 <= k < i ==> cache[offset + k] == config[k]
      invariant forall k :: 0 <= k < |cache| && !(offset <= k < offset + i) ==> cache[k] == e.cache[k]
    {
      cache := cache[offset + i := config[i]];
      i := i + 1;
    }
    r := Image(cache, cache);
    var ops := WriteConfigOps(offset, config);
    var p := PutBytes(e.cache, offset, config);
    PutBytesCells(e.cache, offset, config);
    assert cache == p by {
      forall k | 0 <= k < |cache| ensures cache[k] == p[k] {
        if offset <= k < offset + |config| {
          assert cache[offset + (k - offset)] == config[k - offset];
        }
      }
    }
    assert OpsFit(ops, |e.cache|);
    assert Apply(e, ops) == Apply(Step(e, ops[0]), ops[1..]);
    assert ops[1..] == [Commit];
    assert Apply(Step(e, ops[0]), [Commit]) == Apply(Step(Step(e, ops[0]), Commit), []);
  }
}
