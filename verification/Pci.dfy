/**
 PCI enumeration over an arbitrary configuration space (kernel/src/pci.rs), with the BAR walk of
 sections 3.2.2.3.2 and 6.2.5.1 of the PCI Local Bus Specification 3.0.
 */
module Pci {
  import opened Wrappers

  /** Configuration space: the dword behind each CONFIG_ADDRESS value. */
  type Config = bv32 -> bv32

  datatype Fn = Fn(bus: nat, device: nat, func: nat)

  predicate InRange(fn: Fn) {
    fn.bus < 256 && fn.device < 32 && fn.func < 8
  }

  function ConfigAddress(bus: bv8, device: bv8, func: bv8, offset: bv8): bv32 {
    0x8000_0000
    | ((bus as bv32) << 16)
    | (((device & 0x1F) as bv32) << 11)
    | (((func & 0x7) as bv32) << 8)
    | ((offset as bv32) & 0xFC)
  }

  /** Distinct functions and aligned offsets never share an address. */
  lemma AddressesDistinct(bus: bv8, device: bv8, func: bv8, offset: bv8,
                          bus': bv8, device': bv8, func': bv8, offset': bv8)
    requires device < 32 && device' < 32 && func < 8 && func' < 8
    requires offset & 0x3 == 0 && offset' & 0x3 == 0
    requires ConfigAddress(bus, device, func, offset) == ConfigAddress(bus', device', func', offset')
    ensures bus == bus' && device == device' && func == func' && offset == offset'
  {
  }

  /** Enable bit 31, bus in bits 23-16, device 15-11, function 10-8, aligned offset 7-0, the rest zero. */
  predicate Names(a: bv32, bus: bv8, device: bv8, func: bv8, offset: bv8) {
    && a >> 24 == 0x80
    && (a >> 16) & 0xFF == bus as bv32
    && (a >> 11) & 0x1F == (device & 0x1F) as bv32
    && (a >> 8) & 0x7 == (func & 0x7) as bv32
    && a & 0xFF == (offset & 0xFC) as bv32
  }

  lemma AddressFields(bus: bv8, device: bv8, func: bv8, offset: bv8)
    ensures Names(ConfigAddress(bus, device, func, offset), bus, device, func, offset)
  {
  }

  /** The layout leaves no choice: only one address names a function and offset. */
  lemma OneAddress(bus: bv8, device: bv8, func: bv8, offset: bv8, a: bv32)
    requires Names(a, bus, device, func, offset)
    ensures a == ConfigAddress(bus, device, func, offset)
  {
  }

  function Read32(cfg: Config, fn: Fn, offset: bv8): bv32
    requires InRange(fn)
  {
    cfg(ConfigAddress(fn.bus as bv8, fn.device as bv8, fn.func as bv8, offset))
  }

  /** A read goes to the address that names the function's own bus, device and function number, and the offset. */
  lemma ReadsItsOwnFunction(cfg: Config, fn: Fn, offset: bv8) returns (a: bv32)
    requires InRange(fn)
    ensures Names(a, fn.bus as bv8, fn.device as bv8, fn.func as bv8, offset)
    ensures Read32(cfg, fn, offset) == cfg(a)
  {
    hide ConfigAddress, Names;
    AddressFields(fn.bus as bv8, fn.device as bv8, fn.func as bv8, offset);
    a := ConfigAddress(fn.bus as bv8, fn.device as bv8, fn.func as bv8, offset);
  }

  // --- base address registers -----------------------------------------------------------

  datatype Bar =
    | Io(port: bv16)
    | Memory32(base: bv32, prefetchable: bool)
    | Memory64(base64: bv64, prefetchable: bool)
    | Unknown(raw: bv32)

  predicate IsIo(raw: bv32) {
    raw & 1 == 1
  }

  function MemoryType(raw: bv32): bv32 {
    (raw >> 1) & 3
  }

  predicate Prefetchable(raw: bv32) {
    (raw >> 3) & 1 == 1
  }

  function Base32(raw: bv32): bv32 {
    raw & 0xFFFF_FFF0
  }

  function Base64(low: bv32, high: bv32): bv64 {
    (Base32(low) as bv64) | ((high as bv64) << 32)
  }

  function PortOf(raw: bv32): bv16 {
    (raw & 0xFFFC) as bv16
  }

  /** Decode a register, given the one after it. */
  function DecodeBar(raw: bv32, high: bv32): Bar {
    if IsIo(raw) then Io(PortOf(raw))
    else if MemoryType(raw) == 0 then Memory32(Base32(raw), Prefetchable(raw))
    else if MemoryType(raw) == 2 then Memory64(Base64(raw, high), Prefetchable(raw))
    else Unknown(raw)
  }

  /** The two registers of a 64-bit memory BAR. */
  function EncodeLow(base: bv64, prefetchable: bool): bv32 {
    ((base & 0xFFFF_FFF0) as bv32) | 4 | (if prefetchable then 8 else 0)
  }

  function EncodeHigh(base: bv64): bv32 {
    (base >> 32) as bv32
  }

  lemma EncodedBits(base: bv64, prefetchable: bool)
    ensures !IsIo(EncodeLow(base, prefetchable)) && MemoryType(EncodeLow(base, prefetchable)) == 2
    ensures Prefetchable(EncodeLow(base, prefetchable)) == prefetchable
    ensures base & 0xF == 0 ==> Base64(EncodeLow(base, prefetchable), EncodeHigh(base)) == base
  {
  }

  lemma DecodedBits(low: bv32, high: bv32)
    ensures Base64(low, high) & 0xF == 0 && EncodeHigh(Base64(low, high)) == high
    ensures !IsIo(low) && MemoryType(low) == 2 ==> EncodeLow(Base64(low, high), Prefetchable(low)) == low
  {
  }

  /** Any 16-byte-aligned base survives encoding into two registers and decoding. */
  lemma Bar64RoundTrip(base: bv64, prefetchable: bool)
    requires base & 0xF == 0
    ensures DecodeBar(EncodeLow(base, prefetchable), EncodeHigh(base)) == Memory64(base, prefetchable)
  {
    hide IsIo, MemoryType, Prefetchable, Base64, Base32, EncodeLow, EncodeHigh;
    EncodedBits(base, prefetchable);
  }

  /** And whatever decodes as a 64-bit BAR is the encoding of what it decodes to. */
  lemma Bar64Inverse(low: bv32, high: bv32)
    requires DecodeBar(low, high).Memory64?
    ensures var bar := DecodeBar(low, high);
      bar.base64 & 0xF == 0 && EncodeLow(bar.base64, bar.prefetchable) == low && EncodeHigh(bar.base64) == high
  {
    hide IsIo, MemoryType, Prefetchable, Base64, Base32, EncodeLow, EncodeHigh;
    DecodedBits(low, high);
  }

  /** Which registers decode as what. */
  lemma BarKinds(raw: bv32, high: bv32)
    ensures DecodeBar(raw, high).Io? <==> raw & 0x1 == 1
    ensures DecodeBar(raw, high).Memory32? <==> raw & 0x7 == 0
    ensures DecodeBar(raw, high).Memory64? <==> raw & 0x7 == 4
    ensures DecodeBar(raw, high).Unknown? <==> raw & 0x3 == 2
    ensures DecodeBar(raw, high).Unknown? ==> DecodeBar(raw, high).raw == raw
  {
    KindBits(raw);
    hide IsIo, MemoryType, Prefetchable, Base64, Base32;
  }

  lemma KindBits(raw: bv32)
    ensures IsIo(raw) <==> raw & 0x1 == 1
    ensures raw & 0x7 == 0 <==> !IsIo(raw) && MemoryType(raw) == 0
    ensures raw & 0x7 == 4 <==> !IsIo(raw) && MemoryType(raw) == 2
    ensures raw & 0x3 == 2 <==> !IsIo(raw) && MemoryType(raw) != 0 && MemoryType(raw) != 2
  {
  }

  /** A 16-byte-aligned 32-bit base and the prefetch bit survive encoding and decoding. */
  lemma Bar32RoundTrip(base: bv32, prefetchable: bool, high: bv32)
    requires base & 0xF == 0
    ensures DecodeBar(base | (if prefetchable then 8 else 0), high) == Memory32(base, prefetchable)
  {
    hide IsIo, MemoryType, Prefetchable, Base32;
    Bits32(base, prefetchable);
  }

  lemma Bits32(base: bv32, prefetchable: bool)
    requires base & 0xF == 0
    ensures var raw := base | (if prefetchable then 8 else 0);
      !IsIo(raw) && MemoryType(raw) == 0 && Base32(raw) == base && Prefetchable(raw) == prefetchable
  {
  }

  /** A 4-byte-aligned port survives encoding and decoding. */
  lemma IoRoundTrip(port: bv16, high: bv32)
    requires port & 0x3 == 0
    ensures DecodeBar((port as bv32) | 1, high) == Io(port)
  {
    hide IsIo, PortOf;
    BitsIo(port);
  }

  lemma BitsIo(port: bv16)
    requires port & 0x3 == 0
    ensures IsIo((port as bv32) | 1) && PortOf((port as bv32) | 1) == port
  {
  }

  function ReadBar(cfg: Config, fn: Fn, i: nat): Bar
    requires InRange(fn) && i < 6
  {
    DecodeBar(Read32(cfg, fn, (0x10 + 4 * i) as bv8), Read32(cfg, fn, (0x14 + 4 * i) as bv8))
  }

  /** The six registers are the dwords from 0x10 to 0x24; the one after the last is at 0x28. */
  lemma BarRegisters(cfg: Config, fn: Fn)
    requires InRange(fn)
    ensures ReadBar(cfg, fn, 0) == DecodeBar(Read32(cfg, fn, 0x10), Read32(cfg, fn, 0x14))
    ensures ReadBar(cfg, fn, 1) == DecodeBar(Read32(cfg, fn, 0x14), Read32(cfg, fn, 0x18))
    ensures ReadBar(cfg, fn, 2) == DecodeBar(Read32(cfg, fn, 0x18), Read32(cfg, fn, 0x1C))
    ensures ReadBar(cfg, fn, 3) == DecodeBar(Read32(cfg, fn, 0x1C), Read32(cfg, fn, 0x20))
    ensures ReadBar(cfg, fn, 4) == DecodeBar(Read32(cfg, fn, 0x20), Read32(cfg, fn, 0x24))
    ensures ReadBar(cfg, fn, 5) == DecodeBar(Read32(cfg, fn, 0x24), Read32(cfg, fn, 0x28))
  {
    hide Read32, DecodeBar;
  }

  const BARS := 6

  /** Slot `i`: empty exactly when the slot before it holds a 64-bit BAR, otherwise register `i` decoded. */
  function BarSlot(cfg: Config, fn: Fn, i: nat): Option<Bar>
    requires InRange(fn) && i < 6
  {
    if i > 0 && BarSlot(cfg, fn, i - 1).Some? && BarSlot(cfg, fn, i - 1).value.Memory64? then None
    else Some(ReadBar(cfg, fn, i))
  }

  /** The BAR walk: it steps over the register that a 64-bit BAR has consumed. */
  method ReadBars(cfg: Config, fn: Fn) returns (bars: seq<Option<Bar>>)
    requires InRange(fn)
    ensures |bars| == 6
    ensures forall i :: 0 <= i < 6 ==> bars[i] == BarSlot(cfg, fn, i)
  {
    hide ReadBar;
    var slots := new Option<Bar>[BARS](i => None);
    var i := 0;
    while i < BARS
      invariant 0 <= i <= BARS + 1
      invariant forall j :: 0 <= j < i && j < BARS ==> slots[j] == BarSlot(cfg, fn, j)
      invariant forall j :: i <= j < BARS ==> slots[j] == None
      invariant 0 < i < BARS ==> !(BarSlot(cfg, fn, i - 1).Some? && BarSlot(cfg, fn, i - 1).value.Memory64?)
      decreases BARS + 1 - i
    {
      var bar := ReadBar(cfg, fn, i);
      slots[i] := Some(bar);
      i := i + 1;
      if bar.Memory64? {
        i := i + 1;
      }
    }
    bars := slots[..];
  }

  // --- devices ----------------------------------------------------------------------------

  datatype Device = Device(
    at: Fn, vendor: bv16, id: bv16, class_: bv8, subclass: bv8, progIf: bv8, header: bv8, bars: seq<Option<Bar>>)

  function VendorId(cfg: Config, fn: Fn): bv16
    requires InRange(fn)
  {
    (Read32(cfg, fn, 0) & 0xFFFF) as bv16
  }

  function HeaderType(cfg: Config, fn: Fn): bv8
    requires InRange(fn)
  {
    ((Read32(cfg, fn, 0x0C) >> 16) & 0xFF) as bv8
  }

  predicate Present(cfg: Config, fn: Fn)
    requires InRange(fn)
  {
    VendorId(cfg, fn) != 0xFFFF
  }

  /** Every field of the device record, read from its own configuration registers. */
  function DeviceAt(cfg: Config, fn: Fn): Device
    requires InRange(fn)
  {
    var class_ := Read32(cfg, fn, 0x08);
    Device(fn, VendorId(cfg, fn), ((Read32(cfg, fn, 0) >> 16) & 0xFFFF) as bv16,
           ((class_ >> 24) & 0xFF) as bv8, ((class_ >> 16) & 0xFF) as bv8, ((class_ >> 8) & 0xFF) as bv8,
           HeaderType(cfg, fn), seq(BARS, i requires 0 <= i < BARS => BarSlot(cfg, fn, i)))
  }

  method ReadDevice(cfg: Config, fn: Fn) returns (d: Device)
    requires InRange(fn)
    ensures d == DeviceAt(cfg, fn)
  {
    hide Read32, BarSlot;
    var class_ := Read32(cfg, fn, 0x08);
    var bars := ReadBars(cfg, fn);
    d := Device(fn, VendorId(cfg, fn), ((Read32(cfg, fn, 0) >> 16) & 0xFFFF) as bv16,
                ((class_ >> 24) & 0xFF) as bv8, ((class_ >> 16) & 0xFF) as bv8, ((class_ >> 8) & 0xFF) as bv8,
                HeaderType(cfg, fn), bars);
    assert bars == DeviceAt(cfg, fn).bars;
  }

  predicate Multifunction(cfg: Config, fn: Fn)
    requires InRange(fn)
  {
    HeaderType(cfg, fn) & 0x80 != 0
  }

  /** Function 0 when it is there; functions 1 to 7 when function 0 is there and says it has them. */
  predicate Visible(cfg: Config, fn: Fn)
    requires InRange(fn)
  {
    var zero := Fn(fn.bus, fn.device, 0);
    Present(cfg, fn) && Present(cfg, zero) && (fn.func > 0 ==> Multifunction(cfg, zero))
  }

  /** The identification dword holds the vendor in its low and the device id in its high half. */
  lemma IdFields(cfg: Config, fn: Fn, id: bv16, vendor: bv16)
    requires InRange(fn) && Read32(cfg, fn, 0) == ((id as bv32) << 16) | (vendor as bv32)
    ensures DeviceAt(cfg, fn).vendor == vendor && DeviceAt(cfg, fn).id == id
  {
    hide Read32, BarSlot;
  }

  /** The class dword holds class, subclass, programming interface and revision, from the top byte down. */
  lemma ClassFields(cfg: Config, fn: Fn, class_: bv8, subclass: bv8, progIf: bv8, revision: bv8)
    requires InRange(fn)
    requires Read32(cfg, fn, 0x08) ==
      ((class_ as bv32) << 24) | ((subclass as bv32) << 16) | ((progIf as bv32) << 8) | (revision as bv32)
    ensures DeviceAt(cfg, fn).class_ == class_ && DeviceAt(cfg, fn).subclass == subclass
    ensures DeviceAt(cfg, fn).progIf == progIf
  {
    hide Read32, BarSlot;
  }

  /** The header type is byte 2 of the dword at 0x0C. */
  lemma HeaderField(cfg: Config, fn: Fn, bist: bv8, header: bv8, rest: bv16)
    requires InRange(fn)
    requires Read32(cfg, fn, 0x0C) == ((bist as bv32) << 24) | ((header as bv32) << 16) | (rest as bv32)
    ensures DeviceAt(cfg, fn).header == header
  {
    hide Read32, BarSlot;
  }

  /** In register bits: vendor 0xFFFF is absence, and bit 23 of the dword at 0x0C of function 0 announces functions. */
  lemma VisibleBits(cfg: Config, fn: Fn)
    requires InRange(fn)
    ensures var zero := Fn(fn.bus, fn.device, 0);
      Visible(cfg, fn) <==>
      && Read32(cfg, fn, 0) & 0xFFFF != 0xFFFF && Read32(cfg, zero, 0) & 0xFFFF != 0xFFFF
      && (fn.func > 0 ==> Read32(cfg, zero, 0x0C) & 0x80_0000 != 0)
  {
    hide Present, Multifunction, Read32;
    var zero := Fn(fn.bus, fn.device, 0);
    PresentWord(cfg, fn);
    PresentWord(cfg, zero);
    HeaderWord(cfg, zero);
  }

  lemma PresentWord(cfg: Config, fn: Fn)
    requires InRange(fn)
    ensures Present(cfg, fn) <==> Read32(cfg, fn, 0) & 0xFFFF != 0xFFFF
  {
    hide Read32;
    PresentBits(Read32(cfg, fn, 0));
  }

  lemma HeaderWord(cfg: Config, fn: Fn)
    requires InRange(fn)
    ensures Multifunction(cfg, fn) <==> Read32(cfg, fn, 0x0C) & 0x80_0000 != 0
  {
    hide Read32;
    HeaderBits(Read32(cfg, fn, 0x0C));
  }

  lemma PresentBits(w: bv32)
    ensures (w & 0xFFFF) as bv16 != 0xFFFF <==> w & 0xFFFF != 0xFFFF
  {
  }

  lemma HeaderBits(w: bv32)
    ensures ((w >> 16) & 0xFF) as bv8 & 0x80 != 0 <==> w & 0x80_0000 != 0
  {
  }

  /** Position of a function in (bus, device, function) order. */
  function Key(fn: Fn): nat {
    256 * fn.bus + 8 * fn.device + fn.func
  }

  /** Keys are in the order of bus, then device, then function. */
  lemma KeyOrder(a: Fn, b: Fn)
    requires InRange(a) && InRange(b)
    ensures Key(a) < Key(b) <==>
      a.bus < b.bus || (a.bus == b.bus && (a.device < b.device || (a.device == b.device && a.func < b.func)))
  {
  }

  lemma KeyIsInjective(a: Fn, b: Fn)
    requires InRange(a) && InRange(b) && Key(a) == Key(b)
    ensures a == b
  {
    hide Key;
    KeyOrder(a, b);
    KeyOrder(b, a);
  }

  /**
   `out` lists exactly the visible functions that come before position `k`, each once, with its
   own data, in strictly increasing order.
   */
  ghost predicate Listing(cfg: Config, out: seq<Device>, k: nat) {
    && (forall i :: 0 <= i < |out| ==> InRange(out[i].at) && Key(out[i].at) < k)
    && (forall i :: 0 <= i < |out| ==> Visible(cfg, out[i].at) && out[i] == DeviceAt(cfg, out[i].at))
    && (forall i, j :: 0 <= i < j < |out| ==> Key(out[i].at) < Key(out[j].at))
    && (forall fn :: InRange(fn) && Key(fn) < k && Visible(cfg, fn) ==> DeviceAt(cfg, fn) in out)
  }

  lemma ListNext(cfg: Config, out: seq<Device>, fn: Fn)
    requires InRange(fn) && Listing(cfg, out, Key(fn)) && Visible(cfg, fn)
    ensures Listing(cfg, out + [DeviceAt(cfg, fn)], Key(fn) + 1)
  {
    hide Visible, VendorId, HeaderType, Read32, BarSlot;
    forall g | InRange(g) && Key(g) < Key(fn) + 1 && Visible(cfg, g)
      ensures DeviceAt(cfg, g) in out + [DeviceAt(cfg, fn)]
    {
      if Key(g) == Key(fn) {
        KeyIsInjective(g, fn);
      }
    }
  }

  lemma ListSkip(cfg: Config, out: seq<Device>, k: nat, k': nat)
    requires Listing(cfg, out, k) && k <= k'
    requires forall fn :: InRange(fn) && k <= Key(fn) < k' ==> !Visible(cfg, fn)
    ensures Listing(cfg, out, k')
  {
    hide Visible, DeviceAt;
  }

  lemma WithoutLast(cfg: Config, out: seq<Device>, k: nat)
    requires Listing(cfg, out, k) && out != []
    ensures Listing(cfg, out[..|out| - 1], Key(out[|out| - 1].at))
  {
    hide Visible, VendorId, HeaderType, Read32, BarSlot;
    var front, last := out[..|out| - 1], out[|out| - 1];
    forall fn | InRange(fn) && Key(fn) < Key(last.at) && Visible(cfg, fn) ensures DeviceAt(cfg, fn) in front {
      var i :| 0 <= i < |out| && out[i] == DeviceAt(cfg, fn);
      assert front[i] == out[i];
    }
  }

  lemma LastIsGreatest(cfg: Config, a: seq<Device>, b: seq<Device>, k: nat)
    requires Listing(cfg, a, k) && Listing(cfg, b, k) && a != []
    ensures b != [] && Key(a[|a| - 1].at) <= Key(b[|b| - 1].at)
  {
    hide Visible, DeviceAt;
    var last := a[|a| - 1];
    assert last in b;
  }

  lemma SameLast(cfg: Config, a: seq<Device>, b: seq<Device>, k: nat)
    requires Listing(cfg, a, k) && Listing(cfg, b, k) && a != []
    ensures b != [] && a[|a| - 1] == b[|b| - 1]
  {
    hide Visible, DeviceAt;
    LastIsGreatest(cfg, a, b, k);
    LastIsGreatest(cfg, b, a, k);
    KeyIsInjective(a[|a| - 1].at, b[|b| - 1].at);
  }

  /** A configuration space has only one such listing, so the scan's result is fully determined. */
  lemma {:induction false} ListingIsUnique(cfg: Config, a: seq<Device>, b: seq<Device>, k: nat)
    requires Listing(cfg, a, k) && Listing(cfg, b, k)
    ensures a == b
    decreases |a|
  {
    hide Listing, Key;
    if a == [] {
      if b != [] {
        LastIsGreatest(cfg, b, a, k);
      }
    } else {
      SameLast(cfg, a, b, k);
      WithoutLast(cfg, a, k);
      WithoutLast(cfg, b, k);
      ListingIsUnique(cfg, a[..|a| - 1], b[..|b| - 1], Key(a[|a| - 1].at));
      assert a == a[..|a| - 1] + [a[|a| - 1]] && b == b[..|b| - 1] + [b[|b| - 1]];
    }
  }

  lemma NoneWithoutFunctionZero(cfg: Config, fn: Fn)
    requires InRange(fn) && fn.func == 0
    ensures !Present(cfg, fn) ==> forall g :: InRange(g) && Key(fn) <= Key(g) < Key(fn) + 8 ==> !Visible(cfg, g)
    ensures !Multifunction(cfg, fn) ==>
      forall g :: InRange(g) && Key(fn) + 1 <= Key(g) < Key(fn) + 8 ==> !Visible(cfg, g)
  {
    hide Present, Multifunction;
  }

  lemma AbsentIsInvisible(cfg: Config, fn: Fn)
    requires InRange(fn) && !Present(cfg, fn)
    ensures forall g :: InRange(g) && Key(fn) <= Key(g) < Key(fn) + 1 ==> !Visible(cfg, g)
  {
    hide Present, Multifunction;
    forall g | InRange(g) && Key(fn) <= Key(g) < Key(fn) + 1 ensures !Visible(cfg, g) {
      KeyIsInjective(fn, g);
    }
  }

  /** One device of the scan: function 0, then functions 1 to 7 if function 0 is multifunction. */
  method ScanDevice(cfg: Config, bus: nat, device: nat, devices: seq<Device>) returns (out: seq<Device>)
    requires bus < 256 && device < 32
    requires Listing(cfg, devices, Key(Fn(bus, device, 0)))
    ensures Listing(cfg, out, Key(Fn(bus, device, 0)) + 8)
  {
    hide Listing, DeviceAt, Present, Multifunction;
    var fn := Fn(bus, device, 0);
    NoneWithoutFunctionZero(cfg, fn);
    out := devices;
    if !Present(cfg, fn) {
      ListSkip(cfg, out, Key(fn), Key(fn) + 8);
      return;
    }
    var d := ReadDevice(cfg, fn);
    ListNext(cfg, out, fn);
    out := out + [d];
    if Multifunction(cfg, fn) {
      var func := 1;
      while func < 8
        invariant 1 <= func <= 8
        invariant Listing(cfg, out, Key(fn) + func)
      {
        var g := Fn(bus, device, func);
        if Present(cfg, g) {
          d := ReadDevice(cfg, g);
          ListNext(cfg, out, g);
          out := out + [d];
        } else {
          AbsentIsInvisible(cfg, g);
          ListSkip(cfg, out, Key(g), Key(g) + 1);
        }
        func := func + 1;
      }
    } else {
      ListSkip(cfg, out, Key(fn) + 1, Key(fn) + 8);
    }
  }

  /**
   `enumerate` is sound, complete and free of duplicates for every configuration space, and its
   result is in strictly increasing (bus, device, function) order.
   */
  method Enumerate(cfg: Config) returns (devices: seq<Device>)
    ensures Listing(cfg, devices, 65536)
  {
    hide Visible, DeviceAt;
    devices := [];
    var bus := 0;
    while bus < 256
      invariant 0 <= bus <= 256
      invariant Listing(cfg, devices, 256 * bus)
    {
      var device := 0;
      while device < 32
        invariant 0 <= device <= 32
        invariant Listing(cfg, devices, 256 * bus + 8 * device)
      {
        devices := ScanDevice(cfg, bus, device, devices);
        device := device + 1;
      }
      bus := bus + 1;
    }
  }

  /** The scan in register bits: a function is listed exactly when it is there to be seen. */
  lemma ListedExactlyWhenSeen(cfg: Config, devices: seq<Device>, bus: nat, device: nat, func: nat)
    requires Listing(cfg, devices, 65536)
    ensures (exists i: nat | i < |devices| :: devices[i].at == Fn(bus, device, func)) <==>
      && bus < 256 && device < 32 && func < 8
      && Read32(cfg, Fn(bus, device, func), 0) & 0xFFFF != 0xFFFF
      && Read32(cfg, Fn(bus, device, 0), 0) & 0xFFFF != 0xFFFF
      && (func > 0 ==> Read32(cfg, Fn(bus, device, 0), 0x0C) & 0x80_0000 != 0)
  {
    hide Visible, VendorId, HeaderType, Read32, BarSlot;
    var fn := Fn(bus, device, func);
    if InRange(fn) {
      VisibleBits(cfg, fn);
      if Visible(cfg, fn) {
        var i :| 0 <= i < |devices| && devices[i] == DeviceAt(cfg, fn);
        assert devices[i].at == fn;
      }
    }
  }

  // --- finding the controller ---------------------------------------------------------------

  predicate IsXhci(d: Device) {
    d.class_ == 0x0C && d.subclass == 0x03 && d.progIf == 0x30
  }

  /** An xHCI controller is a function whose class dword is 0x0C0330 above the revision byte. */
  lemma XhciBits(cfg: Config, fn: Fn)
    requires InRange(fn)
    ensures IsXhci(DeviceAt(cfg, fn)) <==> Read32(cfg, fn, 0x08) & 0xFFFF_FF00 == 0x0C03_3000
  {
    ClassBits(Read32(cfg, fn, 0x08));
    hide Read32, BarSlot;
  }

  lemma ClassBits(w: bv32)
    ensures w & 0xFFFF_FF00 == 0x0C03_3000 <==>
      && ((w >> 24) & 0xFF) as bv8 == 0x0C && ((w >> 16) & 0xFF) as bv8 == 0x03 && ((w >> 8) & 0xFF) as bv8 == 0x30
  {
  }

  /** The xHCI controllers of a device list, in its order. */
  function FindXhci(devices: seq<Device>): seq<Device> {
    if devices == [] then []
    else
      var found := FindXhci(devices[..|devices| - 1]);
      if IsXhci(devices[|devices| - 1]) then found + [devices[|devices| - 1]] else found
  }

  lemma {:induction false} FoundAreTheXhci(devices: seq<Device>, d: Device)
    ensures d in FindXhci(devices) <==> d in devices && IsXhci(d)
  {
    if devices != [] {
      FoundAreTheXhci(devices[..|devices| - 1], d);
      assert devices == devices[..|devices| - 1] + [devices[|devices| - 1]];
    }
  }

  ghost predicate Sorted(devices: seq<Device>) {
    forall i, j :: 0 <= i < j < |devices| ==> Key(devices[i].at) < Key(devices[j].at)
  }

  lemma {:induction false} FindKeepsOrder(devices: seq<Device>)
    requires Sorted(devices)
    ensures Sorted(FindXhci(devices))
  {
    if devices != [] {
      var front, last := devices[..|devices| - 1], devices[|devices| - 1];
      FindKeepsOrder(front);
      forall d | d in FindXhci(front) ensures Key(d.at) < Key(last.at) {
        FoundAreTheXhci(front, d);
      }
    }
  }

  /** The scan finds exactly the xHCI controllers that are visible, each once, in bus order. */
  lemma EveryControllerIsFound(cfg: Config, devices: seq<Device>)
    requires Listing(cfg, devices, 65536)
    ensures Sorted(FindXhci(devices))
    ensures forall fn :: InRange(fn) && Visible(cfg, fn) && IsXhci(DeviceAt(cfg, fn)) ==>
      DeviceAt(cfg, fn) in FindXhci(devices)
    ensures forall d :: d in FindXhci(devices) ==>
      InRange(d.at) && Visible(cfg, d.at) && d == DeviceAt(cfg, d.at) && IsXhci(d)
  {
    hide Visible, DeviceAt, FindXhci, IsXhci;
    FindKeepsOrder(devices);
    forall d | d in FindXhci(devices)
      ensures InRange(d.at) && Visible(cfg, d.at) && d == DeviceAt(cfg, d.at) && IsXhci(d)
    {
      FoundAreTheXhci(devices, d);
    }
    forall fn | InRange(fn) && Visible(cfg, fn) && IsXhci(DeviceAt(cfg, fn))
      ensures DeviceAt(cfg, fn) in FindXhci(devices)
    {
      assert Key(fn) < 65536;
      FoundAreTheXhci(devices, DeviceAt(cfg, fn));
    }
  }

  /** In register bits: a function is found exactly when it is visible and its class dword says xHCI. */
  lemma FoundByItsRegisters(cfg: Config, devices: seq<Device>, fn: Fn)
    requires Listing(cfg, devices, 65536) && InRange(fn)
    ensures DeviceAt(cfg, fn) in FindXhci(devices) <==>
      Visible(cfg, fn) && Read32(cfg, fn, 0x08) & 0xFFFF_FF00 == 0x0C03_3000
  {
    hide Visible, DeviceAt, FindXhci, IsXhci, Read32;
    XhciBits(cfg, fn);
    FoundAreTheXhci(devices, DeviceAt(cfg, fn));
    OwnPlace(cfg, fn);
    assert Key(fn) < 65536;
  }

  lemma OwnPlace(cfg: Config, fn: Fn)
    requires InRange(fn)
    ensures DeviceAt(cfg, fn).at == fn
  {
    hide Read32, BarSlot;
  }
}
