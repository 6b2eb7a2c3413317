/** Compiling access lists to TCAM entries, whose masks mark the bits that are NOT compared. */
module AclCompile {
  datatype PortOp = NoOp | Eq | Neq | Lt | Gt | Range
  datatype PktCmd = Fwd | Drop | Unset

  /** Header fields a rule can ask for but the key never compares. */
  datatype Hidden = Hidden(tcpFlags: bv8, cos: bv8, srcMac: bv48, dstMac: bv48)

  /** The header fields a rule can look at; addresses as they lie in memory. */
  datatype Packet = Packet(sip: bv32, dip: bv32, sport: bv16, dport: bv16, proto: bv8, tos: bv8,
                           icmpCode: bv8, icmpType: bv8, vlan: bv16, etherType: bv16, hidden: Hidden)

  datatype Exact8 = Any8 | Is8(value: bv8)
  datatype Exact16 = Any16 | Is16(value: bv16)
  datatype Masked8 = AnyBits8 | Bits8(value: bv8, mask: bv8)
  datatype Masked48 = AnyBits48 | Bits48(value: bv48, mask: bv48)
  datatype Masked32 = AnyBits32 | Bits32(value: bv32, mask: bv32)

  datatype Unseen = Unseen(tcpFlags: Masked8, cos: Exact8, srcMac: Masked48, dstMac: Masked48)

  /** A rule; a field that is not flagged valid accepts anything. */
  datatype Rule = Rule(sip: Masked32, dip: Masked32,
                       sport: Exact16, sportLast: bv16, sportOp: PortOp,
                       dport: Exact16, dportLast: bv16, dportOp: PortOp,
                       proto: Exact8, tos: Masked8, icmpCode: Exact8, icmpType: Exact8,
                       vlan: Exact16, etherType: Exact16, unseen: Unseen, permit: bool, deny: bool)

  /** `x` and `v` agree on the bits of the rule's mask. */
  predicate Under32(x: bv32, v: bv32, m: bv32) {
    x & m == v & m
  }

  predicate Under8(x: bv8, v: bv8, m: bv8) {
    x & m == v & m
  }

  predicate MaskedIs32(o: Masked32, x: bv32) {
    o.Bits32? ==> Under32(x, o.value, o.mask)
  }

  predicate MaskedIs8(o: Masked8, x: bv8) {
    o.Bits8? ==> Under8(x, o.value, o.mask)
  }

  predicate Equals16(o: Exact16, x: bv16) {
    o.Is16? ==> x == o.value
  }

  predicate Equals8(o: Exact8, x: bv8) {
    o.Is8? ==> x == o.value
  }

  predicate Below(x: bv16, y: bv16) {
    x < y
  }

  predicate AtMost(x: bv16, y: bv16) {
    x <= y
  }

  /** What a port operator says about port `x`, given the rule's first port and its last. */
  predicate OpHolds(op: PortOp, x: bv16, first: bv16, last: bv16) {
    match op
    case Neq => x != first
    case Lt => Below(x, first)
    case Gt => Below(first, x)
    case Range => AtMost(first, x) && AtMost(x, last)
    case _ => x == first
  }

  predicate PortIs(o: Exact16, last: bv16, op: PortOp, x: bv16) {
    o.Is16? ==> OpHolds(op, x, o.value, last)
  }

  predicate Under48(x: bv48, v: bv48, m: bv48) {
    x & m == v & m
  }

  predicate MaskedIs48(o: Masked48, x: bv48) {
    o.Bits48? ==> Under48(x, o.value, o.mask)
  }

  predicate UnseenMatches(u: Unseen, h: Hidden) {
    && MaskedIs8(u.tcpFlags, h.tcpFlags) && Equals8(u.cos, h.cos)
    && MaskedIs48(u.srcMac, h.srcMac) && MaskedIs48(u.dstMac, h.dstMac)
  }

  /** What the rule says about a packet. */
  predicate RuleMatches(r: Rule, p: Packet) {
    SeenMatches(r, p) && UnseenMatches(r.unseen, p.hidden)
  }

  /** What it says about the fields that the key has room for. */
  predicate SeenMatches(r: Rule, p: Packet) {
    && MaskedIs32(r.sip, p.sip) && MaskedIs32(r.dip, p.dip)
    && PortIs(r.sport, r.sportLast, r.sportOp, p.sport) && PortIs(r.dport, r.dportLast, r.dportOp, p.dport)
    && Equals8(r.proto, p.proto)
    && MaskedIs8(r.tos, p.tos) && Equals8(r.icmpCode, p.icmpCode) && Equals8(r.icmpType, p.icmpType)
    && Equals16(r.vlan, p.vlan) && Equals16(r.etherType, p.etherType)
  }

  /** Operators the key cannot express. */
  predicate BadOp(op: PortOp) {
    op.Neq? || op.Lt? || op.Gt? || op.Range?
  }

  predicate BadRule(r: Rule) {
    BadOp(r.sportOp) || BadOp(r.dportOp)
  }

  function CmdOf(r: Rule): (c: PktCmd) {
    if r.permit then Fwd else if r.deny then Drop else Unset
  }

  /** ops_xp_cls_reverse_byte_order() */
  function ReverseBytes(x: bv32): (r: bv32) {
    ((x >> 24) & 0xff) | ((x << 8) & 0xff0000) | ((x >> 8) & 0xff00) | ((x << 24) & 0xff000000)
  }

  /** The SDK compares where the mask is zero, so masks are toggled. */
  function Toggled(m: bv32): (r: bv32) {
    0xffff_ffff ^ m
  }

  // ---------------------------------------------------------------- TCAM keys

  datatype F8 = F8(value: bv8, mask: bv8)
  datatype F16 = F16(value: bv16, mask: bv16)
  datatype F32 = F32(value: bv32, mask: bv32)

  /** The fields of the V4 key that are ever compared; the others stay masked out. */
  datatype Key = Key(aclId: F8, etherType: F16, dip: F32, sip: F32, dport: F16, sport: F16,
                     icmpCode: F8, icmpType: F8, proto: F8, tos: F8, bd: F16)

  /** The key the hardware builds for a packet on an interface with ACL id `aclId`. */
  datatype Probe = Probe(aclId: bv8, etherType: bv16, dip: bv32, sip: bv32, dport: bv16, sport: bv16,
                         icmpCode: bv8, icmpType: bv8, proto: bv8, tos: bv8, bd: bv16)

  function ProbeOf(p: Packet, aclId: bv8): (k: Probe) {
    Probe(aclId, p.etherType, ReverseBytes(p.dip), ReverseBytes(p.sip), p.dport, p.sport,
          p.icmpCode, p.icmpType, p.proto, p.tos, p.vlan)
  }

  predicate Cmp8(x: bv8, v: bv8, m: bv8) {
    (x ^ v) & !m == 0
  }

  predicate Cmp16(x: bv16, v: bv16, m: bv16) {
    (x ^ v) & !m == 0
  }

  predicate Cmp32(x: bv32, v: bv32, m: bv32) {
    (x ^ v) & !m == 0
  }

  predicate Hit8(f: F8, x: bv8) {
    Cmp8(x, f.value, f.mask)
  }

  predicate Hit16(f: F16, x: bv16) {
    Cmp16(x, f.value, f.mask)
  }

  predicate Hit32(f: F32, x: bv32) {
    Cmp32(x, f.value, f.mask)
  }

  predicate Hits(k: Key, p: Probe) {
    && Hit8(k.aclId, p.aclId) && Hit16(k.etherType, p.etherType) && Hit32(k.dip, p.dip) && Hit32(k.sip, p.sip)
    && Hit16(k.dport, p.dport) && Hit16(k.sport, p.sport) && Hit8(k.icmpCode, p.icmpCode)
    && Hit8(k.icmpType, p.icmpType) && Hit8(k.proto, p.proto) && Hit8(k.tos, p.tos) && Hit16(k.bd, p.bd)
  }

  // ---------------------------------------------------------------- one field

  /** The four bytes change places: the last becomes the first, and so on. */
  lemma BytesReversed(x: bv32)
    ensures ReverseBytes(x) & 0xff == (x >> 24) & 0xff
    ensures (ReverseBytes(x) >> 8) & 0xff == (x >> 16) & 0xff
    ensures (ReverseBytes(x) >> 16) & 0xff == (x >> 8) & 0xff
    ensures (ReverseBytes(x) >> 24) & 0xff == x & 0xff
  {
  }

  lemma SwapXor(a: bv32, b: bv32)
    ensures ReverseBytes(a) ^ ReverseBytes(b) == ReverseBytes(a ^ b)
  {
  }

  lemma SwapAnd(a: bv32, b: bv32)
    ensures ReverseBytes(a) & ReverseBytes(b) == ReverseBytes(a & b)
  {
  }

  /** Reversing twice is the identity. */
  lemma SwapTwice(a: bv32)
    ensures ReverseBytes(ReverseBytes(a)) == a
  {
  }

  lemma SwapZero(a: bv32)
    ensures ReverseBytes(a) == 0 <==> a == 0
  {
    assert ReverseBytes(0) == 0;
    hide ReverseBytes;
    SwapTwice(a);
  }

  lemma ToggleTwice(m: bv32)
    ensures !Toggled(m) == m
  {
  }

  lemma MaskedEqual(x: bv32, v: bv32, m: bv32)
    ensures (x ^ v) & m == 0 <==> x & m == v & m
  {
    assert (x ^ v) & m == (x & m) ^ (v & m);
  }

  /** Comparing swapped addresses under the toggled swapped mask is the masked comparison. */
  lemma Swapped(x: bv32, v: bv32, m: bv32)
    ensures Cmp32(ReverseBytes(x), ReverseBytes(v), Toggled(ReverseBytes(m))) <==> Under32(x, v, m)
  {
    hide ReverseBytes, Toggled;
    ToggleTwice(ReverseBytes(m));
    SwapXor(x, v);
    SwapAnd(x ^ v, m);
    SwapZero((x ^ v) & m);
    MaskedEqual(x, v, m);
  }

  lemma AnyBits(x8: bv8, x16: bv16, x32: bv32)
    ensures Cmp8(x8, 0, 0xff) && Cmp16(x16, 0, 0xffff) && Cmp32(x32, 0, 0xffff_ffff)
  {
  }

  // ---------------------------------------------------------------- one rule

  function Addr(o: Masked32): (f: F32) {
    if o.Bits32? then F32(ReverseBytes(o.value), Toggled(ReverseBytes(o.mask))) else F32(0, 0xffff_ffff)
  }

  function Word(o: Exact16): (f: F16) {
    if o.Is16? then F16(o.value, 0) else F16(0, 0xffff)
  }

  function Byte(o: Exact8): (f: F8) {
    if o.Is8? then F8(o.value, 0) else F8(0, 0xff)
  }

  /** The type-of-service mask is copied as it is, unlike the address masks. */
  function Tos(o: Masked8): (f: F8) {
    if o.Bits8? then F8(o.value, o.mask) else F8(0, 0xff)
  }

  function KeyFor(r: Rule, aclId: bv8): (k: Key) {
    Key(F8(aclId, 0), Word(r.etherType), Addr(r.dip), Addr(r.sip), Word(r.dport), Word(r.sport),
        Byte(r.icmpCode), Byte(r.icmpType), Byte(r.proto), Tos(r.tos), Word(r.vlan))
  }

  /** ops_xp_alloc_reset_field_data() and ops_xp_cls_populate_iacl_entires(): all fields start masked
      out, and each valid one is filled in; the ACL id is set last. */
  method Populate(r: Rule, aclId: bv8) returns (k: Key, cmd: PktCmd)
    ensures k == KeyFor(r, aclId) && cmd == CmdOf(r)
    ensures (r.permit ==> cmd == Fwd) && (!r.permit && r.deny ==> cmd == Drop) && (!r.permit && !r.deny ==> cmd == Unset)
  {
    hide ReverseBytes, Toggled;
    var sip, dip := F32(0, 0xffff_ffff), F32(0, 0xffff_ffff);
    if r.sip.Bits32? { sip := F32(ReverseBytes(r.sip.value), Toggled(ReverseBytes(r.sip.mask))); }
    if r.dip.Bits32? { dip := F32(ReverseBytes(r.dip.value), Toggled(ReverseBytes(r.dip.mask))); }
    assert sip == Addr(r.sip) && dip == Addr(r.dip);
    var sport, dport, bd, etherType := F16(0, 0xffff), F16(0, 0xffff), F16(0, 0xffff), F16(0, 0xffff);
    if r.sport.Is16? { sport := F16(r.sport.value, 0); }
    if r.dport.Is16? { dport := F16(r.dport.value, 0); }
    assert sport == Word(r.sport);
    assert dport == Word(r.dport);
    var proto, tos, icmpCode, icmpType := F8(0, 0xff), F8(0, 0xff), F8(0, 0xff), F8(0, 0xff);
    if r.proto.Is8? { proto := F8(r.proto.value, 0); }
    if r.tos.Bits8? { tos := F8(r.tos.value, r.tos.mask); }
    if r.icmpCode.Is8? { icmpCode := F8(r.icmpCode.value, 0); }
    if r.icmpType.Is8? { icmpType := F8(r.icmpType.value, 0); }
    assert proto == Byte(r.proto);
    assert tos == Tos(r.tos);
    assert icmpCode == Byte(r.icmpCode);
    assert icmpType == Byte(r.icmpType);
    if r.vlan.Is16? { bd := F16(r.vlan.value, 0); }
    if r.etherType.Is16? { etherType := F16(r.etherType.value, 0); }
    assert bd == Word(r.vlan);
    assert etherType == Word(r.etherType);
    cmd := Unset;
    if r.permit { cmd := Fwd; } else if r.deny { cmd := Drop; }
    k := Key(F8(aclId, 0), etherType, dip, sip, dport, sport, icmpCode, icmpType, proto, tos, bd);
  }

  lemma AddrMeans(o: Masked32, x: bv32)
    ensures Hit32(Addr(o), ReverseBytes(x)) <==> MaskedIs32(o, x)
  {
    hide ReverseBytes, Cmp32, Toggled, Under32;
    AnyBits(0, 0, ReverseBytes(x));
    if o.Bits32? { Swapped(x, o.value, o.mask); }
  }

  lemma WordMeans(o: Exact16, x: bv16)
    ensures Hit16(Word(o), x) <==> Equals16(o, x)
  {
  }

  /** Port conditions the key can express: none, equality, or a range of one port. */
  predicate PortFaithful(o: Exact16, last: bv16, op: PortOp) {
    o.Any16? || !BadOp(op) || (op.Range? && last == o.value)
  }

  function High(x: bv16): (b: bv8) {
    (x >> 8) as bv8
  }

  function Low(x: bv16): (b: bv8) {
    (x & 0xff) as bv8
  }

  predicate AtMost8(x: bv8, y: bv8) {
    x <= y
  }

  lemma SameByte(x: bv8, y: bv8)
    requires AtMost8(x, y) && AtMost8(y, x)
    ensures x == y
  {
  }

  lemma HighOrder(x: bv16, y: bv16)
    requires AtMost(x, y)
    ensures AtMost8(High(x), High(y))
  {
  }

  lemma LowOrder(x: bv16, y: bv16)
    requires AtMost(x, y) && High(x) == High(y)
    ensures AtMost8(Low(x), Low(y))
  {
  }

  lemma SameBytes(x: bv16, y: bv16)
    requires High(x) == High(y) && Low(x) == Low(y)
    ensures x == y
  {
  }

  /** Byte by byte, since the solver does not see it for words. */
  lemma SameWord(x: bv16, y: bv16)
    requires AtMost(x, y) && AtMost(y, x)
    ensures x == y
  {
    hide AtMost, AtMost8, High, Low;
    HighOrder(x, y);
    HighOrder(y, x);
    SameByte(High(x), High(y));
    LowOrder(x, y);
    LowOrder(y, x);
    SameByte(Low(x), Low(y));
    SameBytes(x, y);
  }

  lemma Reflexive(x: bv16)
    ensures AtMost(x, x) && !Below(x, x)
  {
  }

  lemma OneValue(op: PortOp, x: bv16, first: bv16, last: bv16)
    requires !BadOp(op) || (op.Range? && last == first)
    ensures OpHolds(op, x, first, last) <==> x == first
  {
    Reflexive(x);
    hide AtMost, Below;
    if op.Range? && AtMost(first, x) && AtMost(x, first) { SameWord(x, first); }
  }

  lemma PortMeans(o: Exact16, last: bv16, op: PortOp, x: bv16)
    requires PortFaithful(o, last, op)
    ensures Hit16(Word(o), x) <==> PortIs(o, last, op, x)
  {
    hide Hit16, Word, OpHolds, BadOp;
    WordMeans(o, x);
    if o.Is16? { OneValue(op, x, o.value, last); }
  }

  lemma ByteMeans(o: Exact8, x: bv8)
    ensures Hit8(Byte(o), x) <==> Equals8(o, x)
  {
  }

  lemma IdMeans(id: bv8, x: bv8)
    ensures Hit8(F8(id, 0), x) <==> x == id
  {
  }

  lemma NoTosMeans(x: bv8)
    ensures Hit8(Tos(AnyBits8), x) && MaskedIs8(AnyBits8, x)
  {
  }

  /** Apart from the type of service, the compiled key hits exactly the packets the rule matches,
      and only on interfaces that carry the ACL's id. */
  lemma KeyMeans(r: Rule, id: bv8, p: Packet, onIntf: bv8)
    requires PortsFaithful(r)
    ensures Hits(KeyFor(r, id), ProbeOf(p, onIntf))
       <==> id == onIntf && SeenMatches(r.(tos := AnyBits8), p) && Hit8(Tos(r.tos), p.tos)
  {
    hide Hit8, Hit16, Hit32, ReverseBytes, Addr, Word, Byte, Tos;
    hide MaskedIs32, MaskedIs8, Equals16, Equals8, PortIs, PortFaithful;
    IdMeans(id, onIntf);
    NoTosMeans(p.tos);
    AddrMeans(r.sip, p.sip);
    AddrMeans(r.dip, p.dip);
    PortMeans(r.sport, r.sportLast, r.sportOp, p.sport);
    PortMeans(r.dport, r.dportLast, r.dportOp, p.dport);
    WordMeans(r.vlan, p.vlan);
    WordMeans(r.etherType, p.etherType);
    ByteMeans(r.proto, p.proto);
    ByteMeans(r.icmpCode, p.icmpCode);
    ByteMeans(r.icmpType, p.icmpType);
  }

  predicate PortsFaithful(r: Rule) {
    PortFaithful(r.sport, r.sportLast, r.sportOp) && PortFaithful(r.dport, r.dportLast, r.dportOp)
  }

  /** No TCP flags, class of service or MAC address is asked for, but for masks without a bit. */
  predicate Unrestricted(u: Unseen) {
    && (u.tcpFlags.Bits8? ==> u.tcpFlags.mask == 0) && u.cos.Any8?
    && (u.srcMac.Bits48? ==> u.srcMac.mask == 0) && (u.dstMac.Bits48? ==> u.dstMac.mask == 0)
  }

  /** Rules whose meaning the key can express. */
  predicate Faithful(r: Rule) {
    r.tos == AnyBits8 && PortsFaithful(r) && Unrestricted(r.unseen)
  }

  lemma PlainKeyMeans(r: Rule, id: bv8, p: Packet, onIntf: bv8)
    requires Faithful(r)
    ensures Hits(KeyFor(r, id), ProbeOf(p, onIntf)) <==> id == onIntf && RuleMatches(r, p)
  {
    hide Hits, KeyFor, ProbeOf, SeenMatches, Hit8, Tos, PortsFaithful, Unrestricted, UnseenMatches;
    KeyMeans(r, id, p, onIntf);
    NoTosMeans(p.tos);
    assert r.(tos := AnyBits8) == r;
    UnrestrictedMeans(r.unseen, p.hidden);
  }

  lemma NoBits(x8: bv8, v8: bv8, x48: bv48, v48: bv48)
    ensures Under8(x8, v8, 0) && Under48(x48, v48, 0)
  {
  }

  lemma UnrestrictedMeans(u: Unseen, h: Hidden)
    requires Unrestricted(u)
    ensures UnseenMatches(u, h)
  {
    hide Under8, Under48;
    if u.tcpFlags.Bits8? { NoBits(h.tcpFlags, u.tcpFlags.value, 0, 0); }
    if u.srcMac.Bits48? { NoBits(0, 0, h.srcMac, u.srcMac.value); }
    if u.dstMac.Bits48? { NoBits(0, 0, h.dstMac, u.dstMac.value); }
  }

  lemma Complement(v8: bv8, m8: bv8, v48: bv48, m48: bv48)
    ensures (Under8(!v8, v8, m8) <==> m8 == 0) && (Under48(!v48, v48, m48) <==> m48 == 0) && !v8 != v8
    ensures Under8(v8, v8, m8) && Under48(v48, v48, m48)
  {
    assert !v8 & m8 == v8 & m8 ==> m8 == 0;
    assert !v48 & m48 == v48 & m48 ==> m48 == 0;
  }

  function SomeBits8(o: Masked8): (x: bv8)
    ensures MaskedIs8(o, x)
  {
    if o.Bits8? then o.value else 0
  }

  function SomeBits48(o: Masked48): (x: bv48)
    ensures MaskedIs48(o, x)
  {
    if o.Bits48? then o.value else 0
  }

  function SomeHidden(u: Unseen): (h: Hidden)
    ensures UnseenMatches(u, h)
  {
    hide SomeBits8, SomeBits48, Some8, MaskedIs8, MaskedIs48, Equals8;
    Hidden(SomeBits8(u.tcpFlags), Some8(u.cos), SomeBits48(u.srcMac), SomeBits48(u.dstMac))
  }

  /** Fields that differ in every bit from what the rule asks for. */
  function OtherHidden(u: Unseen): (h: Hidden)
    ensures !Unrestricted(u) ==> !UnseenMatches(u, h)
  {
    hide Under8, Under48;
    var h := Hidden(if u.tcpFlags.Bits8? then !u.tcpFlags.value else 0, if u.cos.Is8? then !u.cos.value else 0,
                    if u.srcMac.Bits48? then !u.srcMac.value else 0, if u.dstMac.Bits48? then !u.dstMac.value else 0);
    OtherDiffers(u, h);
    h
  }

  lemma OtherDiffers(u: Unseen, h: Hidden)
    requires u.tcpFlags.Bits8? ==> h.tcpFlags == !u.tcpFlags.value
    requires u.cos.Is8? ==> h.cos == !u.cos.value
    requires u.srcMac.Bits48? ==> h.srcMac == !u.srcMac.value
    requires u.dstMac.Bits48? ==> h.dstMac == !u.dstMac.value
    ensures !Unrestricted(u) ==> !UnseenMatches(u, h)
  {
    hide Under8, Under48;
    if u.tcpFlags.Bits8? { Complement(u.tcpFlags.value, u.tcpFlags.mask, 0, 0); }
    if u.cos.Is8? { Complement(u.cos.value, 0, 0, 0); }
    if u.srcMac.Bits48? { Complement(0, 0, u.srcMac.value, u.srcMac.mask); }
    if u.dstMac.Bits48? { Complement(0, 0, u.dstMac.value, u.dstMac.mask); }
  }

  // ---------------------------------------------------------------- the type of service

  /** A type of service on which the copied mask and the rule disagree. */
  function TosWitness(v: bv8, m: bv8): (x: bv8) {
    if m == 0xff then v ^ 1 else v ^ !m
  }

  lemma TosDisagrees(v: bv8, m: bv8)
    ensures Hit8(F8(v, m), TosWitness(v, m)) != MaskedIs8(Bits8(v, m), TosWitness(v, m))
  {
  }

  function Some32(o: Masked32): (x: bv32)
    ensures MaskedIs32(o, x)
  {
    if o.Bits32? then o.value else 0
  }

  function Some16(o: Exact16): (x: bv16)
    ensures Equals16(o, x)
  {
    if o.Is16? then o.value else 0
  }

  function Some8(o: Exact8): (x: bv8)
    ensures Equals8(o, x)
  {
    if o.Is8? then o.value else 0
  }

  function SomeTos(o: Masked8): (x: bv8)
    ensures Hit8(Tos(o), x) && MaskedIs8(o, x)
  {
    if o.Bits8? then o.value else 0
  }

  /** Operators under which the rule's own first port does not match. */
  predicate Shuns(op: PortOp, first: bv16, last: bv16) {
    op.Neq? || op.Lt? || op.Gt? || (op.Range? && Below(last, first))
  }

  predicate ShunsFirst(o: Exact16, last: bv16, op: PortOp) {
    o.Is16? && Shuns(op, o.value, last)
  }

  lemma SomePort(o: Exact16, last: bv16, op: PortOp)
    ensures ShunsFirst(o, last, op) <==> !PortIs(o, last, op, Some16(o))
  {
    hide OpHolds, Shuns;
    if o.Is16? { FirstHolds(op, o.value, last); }
  }

  lemma FirstHolds(op: PortOp, first: bv16, last: bv16)
    ensures Shuns(op, first, last) <==> !OpHolds(op, first, first, last)
  {
    hide AtMost, Below;
    Reflexive(first);
    NotBelow(first, last);
  }

  lemma NotBelow(x: bv16, y: bv16)
    ensures AtMost(x, y) <==> !Below(y, x)
  {
  }

  /** A packet with the rule's own values and first ports, and with type of service `tos`. */
  function Example(r: Rule, tos: bv8): (p: Packet)
    ensures p.tos == tos && p.sport == Some16(r.sport) && p.dport == Some16(r.dport)
    ensures UnseenMatches(r.unseen, p.hidden)
    ensures SeenMatches(r, p) <==> && PortIs(r.sport, r.sportLast, r.sportOp, p.sport)
                                   && PortIs(r.dport, r.dportLast, r.dportOp, p.dport) && MaskedIs8(r.tos, tos)
  {
    hide PortIs, Some32, Some16, Some8, MaskedIs32, MaskedIs8, Equals16, Equals8;
    Packet(Some32(r.sip), Some32(r.dip), Some16(r.sport), Some16(r.dport), Some8(r.proto), tos,
           Some8(r.icmpCode), Some8(r.icmpType), Some16(r.vlan), Some16(r.etherType), SomeHidden(r.unseen))
  }

  lemma TosUnfaithful(r: Rule, id: bv8) returns (p: Packet)
    requires r.tos.Bits8? && PortsFaithful(r)
    ensures Hits(KeyFor(r, id), ProbeOf(p, id)) != RuleMatches(r, p)
  {
    hide Hits, KeyFor, ProbeOf, Hit8, MaskedIs32, MaskedIs8, Equals16, Equals8, TosWitness, PortIs, PortsFaithful;
    hide Some32, Some16, Some8, SomeHidden, UnseenMatches;
    var v, m := r.tos.value, r.tos.mask;
    p := Example(r, TosWitness(v, m));
    assert p == Example(r.(tos := AnyBits8), TosWitness(v, m));
    KeyMeans(r, id, p, id);
    TosDisagrees(v, m);
    NoTosMeans(p.tos);
    assert Tos(r.tos) == F8(v, m) && r.tos == Bits8(v, m);
    FirstPorts(r);
  }

  /** A port condition the key can express accepts its own first port. */
  lemma FirstPorts(r: Rule)
    requires PortsFaithful(r)
    ensures PortIs(r.sport, r.sportLast, r.sportOp, Some16(r.sport))
    ensures PortIs(r.dport, r.dportLast, r.dportOp, Some16(r.dport))
  {
    hide PortIs, Some16;
    SomePort(r.sport, r.sportLast, r.sportOp);
    SomePort(r.dport, r.dportLast, r.dportOp);
    NeverShuns(r.sport, r.sportLast, r.sportOp);
    NeverShuns(r.dport, r.dportLast, r.dportOp);
  }

  lemma NeverShuns(o: Exact16, last: bv16, op: PortOp)
    requires PortFaithful(o, last, op)
    ensures !ShunsFirst(o, last, op)
  {
  }

  /** The key compares the first port only, so it hits the example packet whatever the operators say. */
  lemma ExampleHits(r: Rule, tos: bv8, id: bv8)
    requires Hit8(Tos(r.tos), tos)
    ensures Hits(KeyFor(r, id), ProbeOf(Example(r, tos), id))
  {
    hide Hits, ProbeOf, SeenMatches, Hit8, Tos, Addr, Word, Byte, Some32, Some16, Some8, MaskedIs8, PortIs;
    hide SomeHidden, UnseenMatches;
    var plain := r.(sportOp := NoOp, dportOp := NoOp, tos := AnyBits8);
    var same := r.(sportOp := NoOp, dportOp := NoOp);
    assert PortsFaithful(plain) && PortsFaithful(same);
    assert Example(plain, tos) == Example(r, tos) && Example(same, tos) == Example(r, tos);
    FirstPorts(plain);
    NoTosMeans(tos);
    assert KeyFor(same, id) == KeyFor(r, id) && same.(tos := AnyBits8) == plain;
    KeyMeans(same, id, Example(r, tos), id);
  }

  // ---------------------------------------------------------------- port operators

  /** A rule that does not match its own first port would be misread. */
  lemma FirstIsMisread(r: Rule, id: bv8) returns (p: Packet)
    requires ShunsFirst(r.sport, r.sportLast, r.sportOp) || ShunsFirst(r.dport, r.dportLast, r.dportOp)
    ensures Hits(KeyFor(r, id), ProbeOf(p, id)) && !RuleMatches(r, p)
  {
    hide Hits, KeyFor, ProbeOf, Example, SeenMatches, UnseenMatches, ShunsFirst, PortIs, Some16, Hit8, Tos, SomeTos, MaskedIs8;
    SomePort(r.sport, r.sportLast, r.sportOp);
    SomePort(r.dport, r.dportLast, r.dportOp);
    p := Example(r, SomeTos(r.tos));
    ExampleHits(r, SomeTos(r.tos), id);
  }

  lemma LastHolds(op: PortOp, first: bv16, last: bv16)
    requires BadOp(op) && !Shuns(op, first, last)
    ensures op.Range? && OpHolds(op, last, first, last)
  {
    hide AtMost, Below;
    Reflexive(last);
    NotBelow(first, last);
  }

  lemma LastInRange(o: Exact16, last: bv16, op: PortOp)
    requires !PortFaithful(o, last, op) && !ShunsFirst(o, last, op)
    ensures PortIs(o, last, op, last) && !Hit16(Word(o), last)
  {
    hide Hit16, Word, OpHolds, Shuns, BadOp;
    WordMeans(o, last);
    LastHolds(op, o.value, last);
  }

  /** A rule that accepts more than its first port would be misread, too. */
  lemma RangeIsMisread(r: Rule, id: bv8) returns (p: Packet)
    requires !PortsFaithful(r)
    requires !ShunsFirst(r.sport, r.sportLast, r.sportOp) && !ShunsFirst(r.dport, r.dportLast, r.dportOp)
    ensures !Hits(KeyFor(r, id), ProbeOf(p, id)) && RuleMatches(r, p)
  {
    hide Example, ShunsFirst, PortIs, Some16, Hit8, Hit16, Hit32, Tos, SomeTos, PortFaithful, Addr, Word, Byte;
    hide MaskedIs8, MaskedIs32, Equals16, Equals8, ReverseBytes, UnseenMatches;
    SomePort(r.sport, r.sportLast, r.sportOp);
    SomePort(r.dport, r.dportLast, r.dportOp);
    p := Example(r, SomeTos(r.tos));
    if !PortFaithful(r.sport, r.sportLast, r.sportOp) {
      LastInRange(r.sport, r.sportLast, r.sportOp);
      p := p.(sport := r.sportLast);
    } else {
      LastInRange(r.dport, r.dportLast, r.dportOp);
      p := p.(dport := r.dportLast);
    }
  }

  /** The key hits packets whatever the fields are that it does not compare. */
  lemma UnseenIsMisread(r: Rule, id: bv8) returns (p: Packet)
    requires !Unrestricted(r.unseen)
    ensures Hits(KeyFor(r, id), ProbeOf(p, id)) && !RuleMatches(r, p)
  {
    hide Hits, KeyFor, Example, SeenMatches, UnseenMatches, Unrestricted, Hit8, Tos, SomeTos, OtherHidden, MaskedIs8;
    hide ReverseBytes;
    var e := Example(r, SomeTos(r.tos));
    ExampleHits(r, SomeTos(r.tos), id);
    p := e.(hidden := OtherHidden(r.unseen));
    assert ProbeOf(p, id) == ProbeOf(e, id);
  }

  /** Compilation preserves a rule's meaning exactly when the rule asks for no type of service, TCP flags,
      class of service or MAC address and its ports are free, equal to one port, or in a range of one port. */
  lemma FaithfulIff(r: Rule, id: bv8)
    ensures (forall p :: Hits(KeyFor(r, id), ProbeOf(p, id)) <==> RuleMatches(r, p)) <==> Faithful(r)
  {
    hide Hits, KeyFor, ProbeOf, RuleMatches, PortsFaithful, Unrestricted;
    if Faithful(r) {
      forall p ensures Hits(KeyFor(r, id), ProbeOf(p, id)) <==> RuleMatches(r, p) {
        PlainKeyMeans(r, id, p, id);
      }
    } else if !Unrestricted(r.unseen) {
      var p := UnseenIsMisread(r, id);
    } else if PortsFaithful(r) {
      var p := TosUnfaithful(r, id);
    } else if ShunsFirst(r.sport, r.sportLast, r.sportOp) || ShunsFirst(r.dport, r.dportLast, r.dportOp) {
      var p := FirstIsMisread(r, id);
    } else {
      var p := RangeIsMisread(r, id);
    }
  }

  /** Rules that pass validation have ports the key can express. */
  lemma SupportedPorts(r: Rule)
    requires !BadRule(r)
    ensures PortsFaithful(r)
  {
  }

  // ---------------------------------------------------------------- a whole list

  /** The ingress tables: port, bridge and router. */
  datatype Table = Pacl | Bacl | Racl
  datatype Slot = Slot(table: Table, index: nat)
  datatype TcamEntry = TcamEntry(priority: int, key: Key, cmd: PktCmd)
  type Tcam = map<Slot, TcamEntry>

  function EntryFor(rules: seq<Rule>, i: nat, id: bv8): (e: TcamEntry)
    requires i < |rules|
  {
    TcamEntry(|rules| - i, KeyFor(rules[i], id), CmdOf(rules[i]))
  }

  /** The list is in the table's TCAM, rule `i` at `at[i]`. */
  ghost predicate Programmed(tcam: Tcam, t: Table, rules: seq<Rule>, id: bv8, at: seq<nat>) {
    && |at| == |rules|
    && forall i :: 0 <= i < |rules| ==> Slot(t, at[i]) in tcam && tcam[Slot(t, at[i])] == EntryFor(rules, i, id)
  }

  /** Everything else in that table belongs to an ACL with another id. */
  ghost predicate OthersAvoid(tcam: Tcam, t: Table, id: bv8, at: seq<nat>) {
    forall s :: s in tcam && s.table == t && s.index !in at ==> AvoidsId(tcam[s].key, id)
  }

  predicate AvoidsId(k: Key, id: bv8) {
    k.aclId.mask == 0 && k.aclId.value != id
  }

  ghost predicate HitsAt(tcam: Tcam, s: Slot, k: Probe)
    requires s in tcam
  {
    Hits(tcam[s].key, k)
  }

  /** The slot whose data the table returns: it hits, and above every other slot that hits. */
  ghost predicate Wins(tcam: Tcam, s: Slot, k: Probe) {
    && s in tcam && HitsAt(tcam, s, k)
    && forall o :: o in tcam && o.table == s.table && o != s && HitsAt(tcam, o, k)
         ==> tcam[o].priority < tcam[s].priority
  }

  /** The index of the first rule that matches, or the length of the list. */
  function FirstMatch(rules: seq<Rule>, p: Packet): (i: nat)
    ensures i <= |rules|
    ensures i < |rules| ==> RuleMatches(rules[i], p)
    ensures forall j :: 0 <= j < i ==> !RuleMatches(rules[j], p)
  {
    if rules == [] then 0 else if RuleMatches(rules[0], p) then 0 else
      var i := FirstMatch(rules[1..], p);
      assert forall j :: 1 <= j < i + 1 ==> rules[j] == rules[1..][j - 1];
      i + 1
  }

  /** Nothing is asked for that validation lets through and the key cannot express. */
  ghost predicate Plain(rules: seq<Rule>) {
    forall i :: 0 <= i < |rules| ==> rules[i].tos == AnyBits8 && Unrestricted(rules[i].unseen)
  }

  ghost predicate Supported(rules: seq<Rule>) {
    forall i :: 0 <= i < |rules| ==> !BadRule(rules[i])
  }

  lemma AvoidMeans(k: Key, id: bv8, p: Packet)
    requires AvoidsId(k, id)
    ensures !Hits(k, ProbeOf(p, id))
  {
  }

  /** A slot of the table hits exactly when it holds a rule of the list that matches. */
  lemma SlotMeans(tcam: Tcam, t: Table, rules: seq<Rule>, id: bv8, at: seq<nat>, p: Packet, s: Slot)
    requires Programmed(tcam, t, rules, id, at) && OthersAvoid(tcam, t, id, at) && Plain(rules) && Supported(rules)
    requires s in tcam && s.table == t
    ensures HitsAt(tcam, s, ProbeOf(p, id))
       <==> exists i :: 0 <= i < |at| && at[i] == s.index && RuleMatches(rules[i], p)
    ensures forall i :: 0 <= i < |at| && at[i] == s.index ==> tcam[s] == EntryFor(rules, i, id)
  {
    hide Hits, KeyFor, ProbeOf, RuleMatches;
    forall i | 0 <= i < |at| && at[i] == s.index
      ensures tcam[s] == EntryFor(rules, i, id)
      ensures HitsAt(tcam, s, ProbeOf(p, id)) <==> RuleMatches(rules[i], p)
    {
      assert s == Slot(t, at[i]);
      SupportedPorts(rules[i]);
      PlainKeyMeans(rules[i], id, p, id);
    }
    if s.index !in at {
      AvoidMeans(tcam[s].key, id, p);
    }
  }

  /** A compiled list means what the list means: on an interface that carries its id, the slot that
      wins holds the first matching rule, whatever other ACLs share the table. */
  lemma ListMeans(tcam: Tcam, t: Table, rules: seq<Rule>, id: bv8, at: seq<nat>, p: Packet)
    requires Programmed(tcam, t, rules, id, at) && OthersAvoid(tcam, t, id, at) && Plain(rules) && Supported(rules)
    ensures FirstMatch(rules, p) == |rules|
       ==> forall s :: s in tcam && s.table == t ==> !HitsAt(tcam, s, ProbeOf(p, id))
    ensures FirstMatch(rules, p) < |rules|
       ==> var i := FirstMatch(rules, p);
           && Wins(tcam, Slot(t, at[i]), ProbeOf(p, id))
           && var cmd := tcam[Slot(t, at[i])].cmd;
              && (rules[i].permit ==> cmd == Fwd) && (!rules[i].permit && rules[i].deny ==> cmd == Drop)
              && (!rules[i].permit && !rules[i].deny ==> cmd == Unset)
  {
    hide HitsAt, KeyFor, ProbeOf, RuleMatches;
    var k, i := ProbeOf(p, id), FirstMatch(rules, p);
    if i < |rules| {
      SlotMeans(tcam, t, rules, id, at, p, Slot(t, at[i]));
    }
    forall s | s in tcam && s.table == t && HitsAt(tcam, s, k)
      ensures i < |rules|
      ensures s != Slot(t, at[i]) ==> tcam[s].priority < tcam[Slot(t, at[i])].priority
    {
      SlotMeans(tcam, t, rules, id, at, p, s);
      var j :| 0 <= j < |at| && at[j] == s.index && RuleMatches(rules[j], p);
      assert i <= j;
      if i == j { assert s == Slot(t, at[i]); }
    }
  }
}
