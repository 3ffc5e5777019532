/** The WebSocket base framing protocol, section 5.2 of RFC 6455, as a relation
    between frames and byte strings. Nothing here is taken from the program: it
    is the reference that the program's parser and frame builder are proved
    against.
 */
module Wire {
  import opened Bytes

  /** A frame as its receiver sees it: the payload is already unmasked. */
  datatype Frame = Frame(fin: bool, opcode: nat, payload: seq<byte>)

  const CONTINUATION := 0
  const TEXT := 1
  const BINARY := 2
  const CLOSE := 8
  const PING := 9
  const PONG := 10

  // ----- masking, section 5.3 -----

  datatype Mask = Unmasked | Key(key: seq<byte>)

  function XorWith(data: seq<byte>, key: seq<byte>): (r: seq<byte>)
    requires |key| == 4
    ensures |r| == |data|
  {
    seq(|data|, i requires 0 <= i < |data| => data[i] ^ key[i % 4])
  }

  function ApplyMask(data: seq<byte>, mask: Mask): (r: seq<byte>)
    requires mask.Key? ==> |mask.key| == 4
    ensures |r| == |data|
  {
    if mask.Key? then XorWith(data, mask.key) else data
  }

  lemma XorTwice(a: byte, k: byte)
    ensures (a ^ k) ^ k == a
  {
  }

  /** Masking is its own inverse. */
  lemma UnmaskUndoesMask(data: seq<byte>, mask: Mask)
    requires mask.Key? ==> |mask.key| == 4
    ensures ApplyMask(ApplyMask(data, mask), mask) == data
  {
    if mask.Key? {
      var twice := XorWith(XorWith(data, mask.key), mask.key);
      forall i | 0 <= i < |data| ensures twice[i] == data[i] {
        XorTwice(data[i], mask.key[i % 4]);
      }
    }
  }

  // ----- the three ways to write a length -----

  datatype LengthForm = Short | Medium | Long

  function ExtensionSize(form: LengthForm): nat {
    match form
    case Short => 0
    case Medium => 2
    case Long => 8
  }

  predicate Fits(n: nat, form: LengthForm) {
    match form
    case Short => n <= 125
    case Medium => n <= UINT16_MAX
    case Long => n < Range(8) / 2
  }

  /** The form that section 5.2 requires: the shortest that fits. */
  function ShortestForm(n: nat): LengthForm {
    if n <= 125 then Short else if n <= UINT16_MAX then Medium else Long
  }

  /** The value of the 7-bit length field. */
  function LengthCode(n: nat, form: LengthForm): (code: nat)
    requires Fits(n, form)
    ensures code < 128
  {
    match form
    case Short => n
    case Medium => 126
    case Long => 127
  }

  function FormOf(code: nat): LengthForm {
    if code == 126 then Medium else if code == 127 then Long else Short
  }

  // ----- writing a frame -----

  predicate Writable(f: Frame, mask: Mask, form: LengthForm) {
    f.opcode < 16 && Fits(|f.payload|, form) && (mask.Key? ==> |mask.key| == 4)
  }

  function Header(f: Frame, mask: Mask, form: LengthForm): (s: seq<byte>)
    requires Writable(f, mask, form)
    ensures |s| == 2 + ExtensionSize(form)
  {
    [U8((if f.fin then 128 else 0) + f.opcode),
     U8((if mask.Key? then 128 else 0) + LengthCode(|f.payload|, form))]
    + ExtendedLength(|f.payload|, form)
  }

  /** The bytes of the extended length field, if there is one. */
  function ExtendedLength(n: nat, form: LengthForm): (s: seq<byte>)
    requires Fits(n, form)
    ensures |s| == ExtensionSize(form)
  {
    if form == Short then []
    else
      ExtendedRange(n, form);
      BigEndian(n, ExtensionSize(form))
  }

  lemma ExtendedRange(n: nat, form: LengthForm)
    requires Fits(n, form) && form != Short
    ensures n < Range(ExtensionSize(form))
  {
    assert Range(2) == 0x1_0000;
  }

  function Encode(f: Frame, mask: Mask, form: LengthForm): seq<byte>
    requires Writable(f, mask, form)
  {
    Header(f, mask, form) + (if mask.Key? then mask.key else []) + ApplyMask(f.payload, mask)
  }

  // ----- reading a frame -----

  /** The first two bytes of a frame. */
  datatype Prelude = Prelude(fin: bool, rsv: bool, opcode: nat, masked: bool, code: nat)

  function ReadPrelude(b0: byte, b1: byte): Prelude {
    var x, y := b0 as int, b1 as int;
    Prelude(x >= 128, x / 16 % 8 != 0, x % 16, y >= 128, y % 128)
  }

  /** Bytes before the masking key. */
  function LengthEnd(p: Prelude): nat {
    2 + ExtensionSize(FormOf(p.code))
  }

  /** Bytes before the payload. */
  function PayloadStart(p: Prelude): nat {
    LengthEnd(p) + if p.masked then 4 else 0
  }

  /** The declared payload length. */
  function Declared(p: Prelude, s: seq<byte>): nat
    requires |s| >= LengthEnd(p)
  {
    if FormOf(p.code) == Short then p.code else FromBigEndian(s[2..LengthEnd(p)])
  }

  datatype Reading =
    | ReservedBits
    | Incomplete
    | Complete(frame: Frame, size: nat)

  function PayloadOf(p: Prelude, s: seq<byte>, n: nat): (r: seq<byte>)
    requires |s| >= PayloadStart(p) + n
    ensures |r| == n
  {
    var start := PayloadStart(p);
    ApplyMask(s[start..start + n], if p.masked then Key(s[start - 4..start]) else Unmasked)
  }

  /** Reads one frame from the front of s. */
  function Read(s: seq<byte>): (r: Reading)
    ensures r.Complete? ==> 2 <= r.size <= |s| && r.frame.opcode < 16
  {
    if |s| < 2 then Incomplete
    else
      var p := ReadPrelude(s[0], s[1]);
      if p.rsv then ReservedBits
      else if |s| < LengthEnd(p) then Incomplete
      else
        var n := Declared(p, s);
        if |s| < PayloadStart(p) + n then Incomplete
        else Complete(Frame(p.fin, p.opcode, PayloadOf(p, s, n)), PayloadStart(p) + n)
  }

  lemma SliceOfPrefix<T>(s: seq<T>, t: seq<T>, i: nat, j: nat)
    requires i <= j <= |s|
    ensures (s + t)[i..j] == s[i..j]
  {
  }

  lemma PayloadIsLocal(p: Prelude, s: seq<byte>, t: seq<byte>, n: nat)
    requires |s| >= PayloadStart(p) + n
    ensures PayloadOf(p, s + t, n) == PayloadOf(p, s, n)
  {
    var start := PayloadStart(p);
    SliceOfPrefix(s, t, start, start + n);
    if p.masked {
      SliceOfPrefix(s, t, start - 4, start);
    }
  }

  /** Bytes after a complete frame do not change what is read. */
  lemma ReadIsLocal(s: seq<byte>, t: seq<byte>)
    requires Read(s).Complete?
    ensures Read(s + t) == Read(s)
  {
    var p := ReadPrelude(s[0], s[1]);
    SliceOfPrefix(s, t, 2, LengthEnd(p));
    PayloadIsLocal(p, s, t, Declared(p, s));
  }

  /** The bytes of a complete frame alone read as that frame. */
  lemma ReadOfFrameAlone(s: seq<byte>)
    requires Read(s).Complete?
    ensures Read(s[..Read(s).size]) == Read(s)
  {
    var n := Read(s).size;
    var p := ReadPrelude(s[0], s[1]);
    var a, t := s[..n], s[n..];
    assert s == a + t;
    SliceOfPrefix(a, t, 2, LengthEnd(p));
    PayloadIsLocal(p, a, t, Declared(p, s));
  }

  lemma ReservedBitsAreLocal(s: seq<byte>, t: seq<byte>)
    requires |s| >= 2
    ensures Read(s).ReservedBits? <==> Read(s + t).ReservedBits?
  {
  }

  lemma PreludeOf(f: Frame, mask: Mask, form: LengthForm, s: seq<byte>)
    requires Writable(f, mask, form) && |s| >= 2 && s[..2] == Header(f, mask, form)[..2]
    ensures ReadPrelude(s[0], s[1]) == Prelude(f.fin, false, f.opcode, mask.Key?, LengthCode(|f.payload|, form))
  {
    var h := Header(f, mask, form);
    assert s[0] == s[..2][0] == h[0] && s[1] == s[..2][1] == h[1];
  }

  lemma Slices<T>(a: seq<T>, b: seq<T>, c: seq<T>, d: seq<T>)
    ensures var s := a + b + c + d;
            && s[..|a|] == a && s[|a|..|a| + |b|] == b && s[|a| + |b|..|a| + |b| + |c|] == c
  {
  }

  lemma DeclaredLength(f: Frame, mask: Mask, form: LengthForm, p: Prelude, s: seq<byte>)
    requires Writable(f, mask, form) && p.code == LengthCode(|f.payload|, form)
    requires |s| >= |Header(f, mask, form)| && s[..|Header(f, mask, form)|] == Header(f, mask, form)
    ensures LengthEnd(p) == |Header(f, mask, form)| && Declared(p, s) == |f.payload|
  {
    var h := Header(f, mask, form);
    if form != Short {
      ExtendedRange(|f.payload|, form);
      assert s[2..|h|] == s[..|h|][2..] == BigEndian(|f.payload|, ExtensionSize(form));
      BigEndianRoundTrip(|f.payload|, ExtensionSize(form));
    }
  }

  lemma UnmaskedPayload(p: Prelude, payload: seq<byte>, mask: Mask, s: seq<byte>)
    requires (mask.Key? ==> |mask.key| == 4) && p.masked == mask.Key?
    requires |s| >= PayloadStart(p) + |payload|
    requires s[PayloadStart(p)..PayloadStart(p) + |payload|] == ApplyMask(payload, mask)
    requires mask.Key? ==> s[LengthEnd(p)..LengthEnd(p) + 4] == mask.key
    ensures PayloadOf(p, s, |payload|) == payload
  {
    UnmaskUndoesMask(payload, mask);
  }

  /** Reading undoes writing, for every mask, every length form and whatever follows. */
  lemma ReadUndoesEncode(f: Frame, mask: Mask, form: LengthForm, rest: seq<byte>)
    requires Writable(f, mask, form)
    ensures Read(Encode(f, mask, form) + rest) == Complete(f, |Encode(f, mask, form)|)
  {
    var h, key, data := Header(f, mask, form), if mask.Key? then mask.key else [], ApplyMask(f.payload, mask);
    var s := Encode(f, mask, form) + rest;
    Slices(h, key, data, rest);
    assert s[..2] == s[..|h|][..2];
    PreludeOf(f, mask, form, s);
    var p := ReadPrelude(s[0], s[1]);
    DeclaredLength(f, mask, form, p, s);
    UnmaskedPayload(p, f.payload, mask, s);
  }

  /** A frame read is part of what was given. */
  lemma PayloadInFrame(b: seq<byte>)
    ensures Read(b).Complete? ==> |Read(b).frame.payload| <= Read(b).size <= |b|
  {
    hide FromBigEndian;
  }
}
