/** The keyboard ring of src/keyboard.c: an interrupt handler filling it, and a reader that can be interrupted between
    any two of its loads and stores. */
module Keyboard {

  type Byte = x: nat | x < 256

  const SIZE: nat := 256

  type Index = x: nat | x < SIZE

  type Buffer = b: seq<Byte> | |b| == SIZE witness seq(SIZE, _ => 0)

  /** ASCII of scancodes 0 to 127, sixteen to a row; 0 for keys that produce no character. */
  const KEYS_0: seq<Byte> := [0, 27, 49, 50, 51, 52, 53, 54, 55, 56, 57, 48, 45, 61, 8, 9]
  const KEYS_1: seq<Byte> := [113, 119, 101, 114, 116, 121, 117, 105, 111, 112, 91, 93, 10, 0, 97, 115]
  const KEYS_2: seq<Byte> := [100, 102, 103, 104, 106, 107, 108, 59, 39, 96, 0, 92, 122, 120, 99, 118]
  const KEYS_3: seq<Byte> := [98, 110, 109, 44, 46, 47, 0, 42, 0, 32, 0, 0, 0, 0, 0, 0]
  const KEYS_4: seq<Byte> := [0, 0, 0, 0, 0, 0, 0, 0, 0, 0, 45, 0, 0, 0, 43, 0]
  const NO_KEYS: seq<Byte> := [0, 0, 0, 0, 0, 0, 0, 0, 0, 0, 0, 0, 0, 0, 0, 0]

  /** scancode_to_ascii, rows of sixteen. */
  function Row(k: nat): (r: seq<Byte>)
    ensures |r| == 16
  {
    match k case 0 => KEYS_0 case 1 => KEYS_1 case 2 => KEYS_2 case 3 => KEYS_3 case 4 => KEYS_4 case _ => NO_KEYS
  }

  datatype Ring = Ring(buf: Buffer, start: Index, end: Index)

  function Next(i: Index): Index { (i + 1) % SIZE }

  /** The character a scancode stands for; 0 for key releases and silent keys. */
  function Decode(scancode: Byte): Byte {
    if scancode < 128 then Row(scancode / 16)[scancode % 16] else 0
  }

  /** keyboard_callback. */
  function Interrupt(r: Ring, scancode: Byte): Ring {
    var c := Decode(scancode);
    if c != 0 && Next(r.end) != r.start then Ring(r.buf[r.end := c], r.start, Next(r.end)) else r
  }

  class Keyboard {
    const buffer: array<Byte>
    var start: Index
    var end: Index

    ghost predicate Valid()
      reads this
    {
      buffer.Length == SIZE
    }

    ghost function Contents(): Ring
      requires Valid()
      reads this, buffer
    {
      Ring(buffer[..], start, end)
    }

    constructor ()
      ensures Valid() && start == end == 0 && fresh(buffer)
    {
      buffer := new Byte[SIZE](_ => 0);
      start, end := 0, 0;
    }

    method Callback(scancode: Byte)
      requires Valid()
      modifies this`end, buffer
      ensures Valid() && Contents() == Interrupt(old(Contents()), scancode)
      ensures scancode >= 0x80 ==> Contents() == old(Contents())
    {
      if scancode < 128 {
        var c := Decode(scancode);
        if c != 0 {
          var next := (end + 1) % SIZE;
          if next != start {
            buffer[end] := c;
            end := next;
          }
        }
      }
    }

    method HasInput() returns (b: bool)
      requires Valid()
      ensures b <==> Queued(Contents()) != []
    {
      b := start != end;
    }

    /** keyboard_get_char once a character waits; ReadStep is the version that waits and can be interrupted. */
    method GetChar() returns (c: Byte)
      requires Valid() && Queued(Contents()) != []
      modifies this`start
      ensures Valid() && [c] + Queued(Contents()) == old(Queued(Contents()))
    {
      BumpDrops(Contents());
      c := buffer[start];
      start := (start + 1) % SIZE;
    }
  }

  // ---------- The keys ----------

  /** The key on which a character is printed, on a US keyboard; 0 for characters that need a shift key. */
  function KeyOf(c: char): Byte {
    match c
    case '1' => 2 case '2' => 3 case '3' => 4 case '4' => 5 case '5' => 6 case '6' => 7
    case '7' => 8 case '8' => 9 case '9' => 10 case '0' => 11 case '-' => 12 case '=' => 13
    case 'q' => 16 case 'w' => 17 case 'e' => 18 case 'r' => 19 case 't' => 20 case 'y' => 21
    case 'u' => 22 case 'i' => 23 case 'o' => 24 case 'p' => 25 case '[' => 26 case ']' => 27
    case 'a' => 30 case 's' => 31 case 'd' => 32 case 'f' => 33 case 'g' => 34 case 'h' => 35
    case 'j' => 36 case 'k' => 37 case 'l' => 38 case ';' => 39 case '\'' => 40 case '`' => 41
    case '\\' => 43 case 'z' => 44 case 'x' => 45 case 'c' => 46 case 'v' => 47 case 'b' => 48
    case 'n' => 49 case 'm' => 50 case ',' => 51 case '.' => 52 case '/' => 53
    case '\U{1b}' => 1 case '\U{8}' => 14 case '\t' => 15 case '\n' => 28 case '*' => 55 case ' ' => 57
    case '+' => 78
    case _ => 0
  }

  lemma KeyOfRow0(i: nat)
    requires i < 16 && KEYS_0[i] != 0
    ensures KeyOf(KEYS_0[i] as char) == i
  {
  }

  lemma KeyOfRow1(i: nat)
    requires i < 16 && KEYS_1[i] != 0
    ensures KeyOf(KEYS_1[i] as char) == 16 + i
  {
  }

  lemma KeyOfRow2(i: nat)
    requires i < 16 && KEYS_2[i] != 0
    ensures KeyOf(KEYS_2[i] as char) == 32 + i
  {
  }

  lemma KeyOfRow3(i: nat)
    requires i < 16 && KEYS_3[i] != 0
    ensures KeyOf(KEYS_3[i] as char) == 48 + i
  {
  }

  lemma KeyOfPlus()
    ensures KEYS_4[14] == '+' as int && KeyOf('+') == 78
  {
  }

  /** Only one key types a character, except that the minus of the number pad does what the other one does. */
  lemma OneKey(a: Byte)
    requires Decode(a) != 0 && a != 74
    ensures a < 128 && KeyOf(Decode(a) as char) == a
  {
    hide KeyOf;
    var i := a % 16;
    match a / 16 {
      case 0 => KeyOfRow0(i);
      case 1 => KeyOfRow1(i);
      case 2 => KeyOfRow2(i);
      case 3 => KeyOfRow3(i);
      case 4 => KeyOfPlus();
      case _ =>
    }
  }

  lemma KeyTypes0(c: char)
    requires 0 < KeyOf(c) < 16
    ensures Decode(KeyOf(c)) == c as int
  {
  }

  lemma KeyTypes1(c: char)
    requires 16 <= KeyOf(c) < 32
    ensures Decode(KeyOf(c)) == c as int
  {
  }

  lemma KeyTypes2(c: char)
    requires 32 <= KeyOf(c) < 48
    ensures Decode(KeyOf(c)) == c as int
  {
  }

  lemma KeyTypes3(c: char)
    requires 48 <= KeyOf(c) < 64
    ensures Decode(KeyOf(c)) == c as int
  {
  }

  lemma KeyTypes4(c: char)
    requires 64 <= KeyOf(c)
    ensures Decode(KeyOf(c)) == c as int
  {
    KeyOfPlus();
    assert c == '+';
  }

  lemma NumberPad()
    ensures Decode(74) == '-' as int
  {
  }

  /** A character that is on a key comes from that key, and from no other; a minus also from the number pad. */
  lemma ExactlyOneKey(c: char, a: Byte)
    requires KeyOf(c) != 0
    ensures Decode(a) == c as int <==> a == KeyOf(c) || (c == '-' && a == 74)
  {
    hide KeyOf, Decode;
    match KeyOf(c) / 16 {
      case 0 => KeyTypes0(c);
      case 1 => KeyTypes1(c);
      case 2 => KeyTypes2(c);
      case 3 => KeyTypes3(c);
      case _ => KeyTypes4(c);
    }
    KeyBelow(c);
    NumberPad();
    if Decode(a) == c as int && a != 74 {
      OneKey(a);
    }
  }

  /** Key releases do nothing. */
  lemma ReleaseIgnored(r: Ring, scancode: Byte)
    requires scancode >= 0x80
    ensures Interrupt(r, scancode) == r
  {
  }

  // ---------- The ring as a queue ----------

  function Length(r: Ring): nat {
    if r.end >= r.start then r.end - r.start else r.end + SIZE - r.start
  }

  function Slot(r: Ring, i: Index): Index {
    if r.start + i < SIZE then r.start + i else r.start + i - SIZE
  }

  /** The characters waiting, oldest first. */
  function Queued(r: Ring): (q: seq<Byte>)
    ensures |q| == Length(r) < SIZE
  {
    seq(Length(r), i requires 0 <= i < Length(r) => r.buf[Slot(r, i)])
  }

  lemma NextIs(i: Index)
    ensures Next(i) == if i == SIZE - 1 then 0 else i + 1
  {
  }

  /** Waiting characters are not at end, and the slot after the last one is. */
  lemma SlotEnd(r: Ring, i: Index)
    ensures i < Length(r) ==> Slot(r, i) != r.end
    ensures i == Length(r) ==> Slot(r, i) == r.end
  {
  }

  /** The handler finds room exactly when fewer than 255 characters wait, and one more waits then. */
  lemma RoomIf(r: Ring)
    ensures Next(r.end) != r.start <==> Length(r) < SIZE - 1
    ensures Length(r) < SIZE - 1 ==> Length(r.(end := Next(r.end))) == Length(r) + 1
  {
    hide Next;
    NextIs(r.end);
  }

  /** The handler appends the character, unless 255 are waiting already. */
  lemma InterruptAppends(r: Ring, scancode: Byte)
    ensures Interrupt(r, scancode).start == r.start
    ensures Queued(Interrupt(r, scancode)) ==
            if Decode(scancode) != 0 && Length(r) < SIZE - 1 then Queued(r) + [Decode(scancode)] else Queued(r)
  {
    hide Decode, Next;
    RoomIf(r);
    var t, c := Interrupt(r, scancode), Decode(scancode);
    if c != 0 && Length(r) < SIZE - 1 {
      hide Length;
      forall i | 0 <= i < Length(t) ensures Queued(t)[i] == (Queued(r) + [c])[i] {
        SlotEnd(r, i);
      }
    }
  }

  /** Moving start on drops the oldest character. */
  lemma BumpDrops(r: Ring)
    requires Queued(r) != []
    ensures Queued(r.(start := Next(r.start))) == Queued(r)[1..]
    ensures Queued(r)[0] == r.buf[r.start]
  {
    var t := r.(start := Next(r.start));
    forall i | 0 <= i < Length(t) ensures Queued(t)[i] == Queued(r)[i + 1] {
      assert Slot(t, i) == Slot(r, i + 1);
    }
  }

  // ---------- Interleaving ----------

  /** Where keyboard_get_char is, with the values it has loaded so far. */
  datatype Pc =
    | Outside
    | LoadStart
    | LoadEnd(start: Index)
    | LoadIndex
    | LoadChar(index: Index)
    | LoadBump(c: Byte)
    | StoreStart(c: Byte, start: Index)

  /** The ring, the reader, and the history: characters accepted by the handler and characters returned to callers. */
  datatype State = State(ring: Ring, pc: Pc, accepted: seq<Byte>, returned: seq<Byte>)

  datatype Event = Irq(scancode: Byte) | Read

  /** One load or store of the reader. */
  function ReadStep(s: State): State {
    match s.pc
    case Outside => s.(pc := LoadStart)
    case LoadStart => s.(pc := LoadEnd(s.ring.start))
    case LoadEnd(a) => s.(pc := if a == s.ring.end then LoadStart else LoadIndex)
    case LoadIndex => s.(pc := LoadChar(s.ring.start))
    case LoadChar(i) => s.(pc := LoadBump(s.ring.buf[i]))
    case LoadBump(c) => s.(pc := StoreStart(c, s.ring.start))
    case StoreStart(c, i) => s.(ring := s.ring.(start := Next(i)), pc := Outside, returned := s.returned + [c])
  }

  function Step(s: State, e: Event): State {
    match e
    case Read => ReadStep(s)
    case Irq(scancode) =>
      var r := Interrupt(s.ring, scancode);
      s.(ring := r, accepted := if r != s.ring then s.accepted + [Decode(scancode)] else s.accepted)
  }

  /** What was accepted is what was returned followed by what is waiting; and once past the emptiness test the reader
      holds the oldest character waiting. */
  ghost predicate Inv(s: State) {
    && s.accepted == s.returned + Queued(s.ring)
    && match s.pc
       case Outside => true
       case LoadStart => true
       case LoadEnd(a) => a == s.ring.start
       case LoadIndex => Queued(s.ring) != []
       case LoadChar(i) => Queued(s.ring) != [] && i == s.ring.start
       case LoadBump(c) => Queued(s.ring) != [] && c == Queued(s.ring)[0]
       case StoreStart(c, i) => Queued(s.ring) != [] && c == Queued(s.ring)[0] && i == s.ring.start
  }

  lemma ReadStepInv(s: State)
    requires Inv(s)
    ensures Inv(ReadStep(s))
  {
    hide Next, Slot;
    if Queued(s.ring) != [] {
      BumpDrops(s.ring);
      hide Queued;
      assert Queued(s.ring) == [Queued(s.ring)[0]] + Queued(s.ring)[1..];
    }
  }

  lemma IrqInv(s: State, scancode: Byte)
    requires Inv(s)
    ensures Inv(Step(s, Irq(scancode)))
  {
    InterruptAppends(s.ring, scancode);
    Accepts(s.ring, scancode);
    hide Queued, Interrupt, Decode;
    var q, c := Queued(s.ring), Decode(scancode);
    assert s.returned + (q + [c]) == s.returned + q + [c];
  }

  /** A character is dropped only when the ring is full. */
  lemma Accepts(r: Ring, scancode: Byte)
    ensures Interrupt(r, scancode) != r <==> Decode(scancode) != 0 && |Queued(r)| < 255
  {
    hide Decode;
  }

  lemma StepInv(s: State, e: Event)
    requires Inv(s)
    ensures Inv(Step(s, e))
  {
    match e
    case Read => ReadStepInv(s);
    case Irq(scancode) => IrqInv(s, scancode);
  }

  // ---------- Runs ----------

  ghost function Run(s: State, es: seq<Event>): (t: State)
    requires Inv(s)
    ensures Inv(t)
    decreases |es|
  {
    if es == [] then s else
      StepInv(s, es[0]);
      Run(Step(s, es[0]), es[1..])
  }

  function Boot(): State { State(Ring(seq(SIZE, _ => 0), 0, 0), Outside, [], []) }

  /** Whatever the interleaving, readers get the accepted characters, in order, each once, and at most 255 wait. */
  lemma ReadersGetWhatWasTyped(es: seq<Event>)
    ensures Inv(Boot())
    ensures var t := Run(Boot(), es);
            && t.returned <= t.accepted
            && t.accepted[|t.returned|..] == Queued(t.ring)
            && |t.accepted| - |t.returned| < 256
  {
    assert Queued(Boot().ring) == [];
    var t := Run(Boot(), es);
    hide Queued, Run;
    assert t.accepted == t.returned + Queued(t.ring);
  }

  predicate IsRelease(e: Event) {
    e.Irq? && e.scancode >= 0x80
  }

  function WithoutReleases(es: seq<Event>): seq<Event> {
    if es == [] then [] else (if IsRelease(es[0]) then [] else [es[0]]) + WithoutReleases(es[1..])
  }

  /** Over every run, leaving out the interrupts for key releases makes no difference to the ring, the reader, or what
      was accepted and returned. */
  lemma {:induction false} ReleasesIgnored(s: State, es: seq<Event>)
    requires Inv(s)
    ensures Run(s, WithoutReleases(es)) == Run(s, es)
    decreases |es|
  {
    hide Inv, Interrupt, ReadStep, Decode;
    if es != [] {
      StepInv(s, es[0]);
      ReleasesIgnored(Step(s, es[0]), es[1..]);
      if IsRelease(es[0]) {
        ReleaseIgnored(s.ring, es[0].scancode);
        assert Step(s, es[0]) == s && WithoutReleases(es) == WithoutReleases(es[1..]);
      } else {
        var rest := WithoutReleases(es[1..]);
        assert ([es[0]] + rest)[1..] == rest;
      }
    }
  }

  /** Every key of a text pressed and released. */
  function PressAndRelease(text: string): seq<Event>
    requires forall c :: c in text ==> KeyOf(c) != 0
  {
    if text == [] then [] else
    assert text[0] in text;
    [Irq(KeyOf(text[0])), Irq(KeyOf(text[0]) + 0x80)] + PressAndRelease(text[1..])
  }

  /** The characters of the keys pressed, in order. */
  function Typed(es: seq<Event>): seq<Byte> {
    if es == [] then [] else
      (if es[0].Irq? && Decode(es[0].scancode) != 0 then [Decode(es[0].scancode)] else []) + Typed(es[1..])
  }

  /** Typing a text types that text: each character once. */
  lemma {:induction false} TypedIsText(text: string)
    requires forall c :: c in text ==> KeyOf(c) != 0
    ensures |Typed(PressAndRelease(text))| == |text|
    ensures forall i :: 0 <= i < |text| ==> Typed(PressAndRelease(text))[i] == text[i] as int
  {
    hide KeyOf, Decode;
    if text != [] {
      var c, rest := text[0], PressAndRelease(text[1..]);
      assert c in text;
      TypedIsText(text[1..]);
      TypedOne(c, rest);
    }
  }

  lemma TypedOne(c: char, rest: seq<Event>)
    requires KeyOf(c) != 0
    ensures Typed([Irq(KeyOf(c)), Irq(KeyOf(c) + 0x80)] + rest) == [c as int] + Typed(rest)
  {
    hide KeyOf, Decode, Typed;
    KeyBelow(c);
    var k := KeyOf(c);
    ExactlyOneKey(c, k);
    SilentRelease(k + 0x80);
    TypedNext(Irq(k), [Irq(k + 0x80)] + rest);
    TypedNext(Irq(k + 0x80), rest);
    assert [Irq(k), Irq(k + 0x80)] + rest == [Irq(k)] + ([Irq(k + 0x80)] + rest);
    assert [] + Typed(rest) == Typed(rest);
  }

  lemma SilentRelease(scancode: Byte)
    requires scancode >= 0x80
    ensures Decode(scancode) == 0
  {
  }

  lemma TypedNext(e: Event, es: seq<Event>)
    ensures Typed([e] + es) == (if e.Irq? && Decode(e.scancode) != 0 then [Decode(e.scancode)] else []) + Typed(es)
  {
    hide Decode;
    assert ([e] + es)[1..] == es;
  }

  lemma KeyBelow(c: char)
    ensures KeyOf(c) < 128 && (KeyOf(c) != 0 ==> 0 < c as int < 256)
  {
  }

  /** How many of them arrive while 255 characters wait. */
  ghost function Missed(s: State, es: seq<Event>): nat
    requires Inv(s)
    decreases |es|
  {
    if es == [] then 0 else
      StepInv(s, es[0]);
      (if es[0].Irq? && Decode(es[0].scancode) != 0 && |Queued(s.ring)| == 255 then 1 else 0)
      + Missed(Step(s, es[0]), es[1..])
  }

  /** The one step of AcceptedUnlessFull. */
  lemma StepAccepts(s: State, e: Event)
    requires Inv(s)
    ensures Step(s, e).accepted ==
            if e.Irq? && Decode(e.scancode) != 0 && |Queued(s.ring)| < 255 then s.accepted + [Decode(e.scancode)]
            else s.accepted
  {
    if e.Irq? { Accepts(s.ring, e.scancode); }
  }

  /** The characters typed that find fewer than 255 waiting, in order. */
  ghost function Admitted(s: State, es: seq<Event>): seq<Byte>
    requires Inv(s)
    decreases |es|
  {
    if es == [] then [] else
      StepInv(s, es[0]);
      (if es[0].Irq? && Decode(es[0].scancode) != 0 && |Queued(s.ring)| < 255
       then [Decode(es[0].scancode)] else [])
      + Admitted(Step(s, es[0]), es[1..])
  }

  lemma {:induction false} AcceptsAdmitted(s: State, es: seq<Event>)
    requires Inv(s)
    ensures Run(s, es).accepted == s.accepted + Admitted(s, es)
    decreases |es|
  {
    hide Decode, Inv, Queued, Step;
    if es != [] {
      StepInv(s, es[0]);
      StepAccepts(s, es[0]);
      AcceptsAdmitted(Step(s, es[0]), es[1..]);
      if es[0].Irq? && Decode(es[0].scancode) != 0 && |Queued(s.ring)| < 255 {
        var c := Decode(es[0].scancode);
        assert s.accepted + [c] + Admitted(Step(s, es[0]), es[1..]) ==
            s.accepted + ([c] + Admitted(Step(s, es[0]), es[1..]));
      }
    }
  }

  lemma {:induction false} AdmittedCount(s: State, es: seq<Event>)
    requires Inv(s)
    ensures |Admitted(s, es)| == |Typed(es)| - Missed(s, es)
    ensures Missed(s, es) == 0 ==> Admitted(s, es) == Typed(es)
    decreases |es|
  {
    hide Decode, Inv, Step, Length;
    if es != [] {
      StepInv(s, es[0]);
      AdmittedCount(Step(s, es[0]), es[1..]);
    }
  }

  /** The characters accepted are exactly those typed that find room in the ring; all of them, if none comes while 255
      wait. */
  lemma AcceptedUnlessFull(s: State, es: seq<Event>)
    requires Inv(s)
    ensures Run(s, es).accepted == s.accepted + Admitted(s, es)
    ensures |Admitted(s, es)| == |Typed(es)| - Missed(s, es)
    ensures Admitted(s, es) == Typed(es) <==> Missed(s, es) == 0
  {
    hide *;
    AcceptsAdmitted(s, es);
    AdmittedCount(s, es);
  }

  // ---------- Progress ----------

  /** Loads and stores left to the reader's next return. */
  function Remaining(pc: Pc): nat {
    match pc
    case Outside => 7
    case LoadStart => 6
    case LoadEnd(_) => 5
    case LoadIndex => 4
    case LoadChar(_) => 3
    case LoadBump(_) => 2
    case StoreStart(_, _) => 1
  }

  function Reads(es: seq<Event>): nat {
    if es == [] then 0 else (if es[0].Read? then 1 else 0) + Reads(es[1..])
  }

  lemma StepProgress(s: State, e: Event)
    requires Inv(s) && Queued(s.ring) != []
    ensures var t := Step(s, e);
            if e.Read? && s.pc.StoreStart? then t.returned == s.returned + [Queued(s.ring)[0]]
            else
              && t.returned == s.returned && Inv(t) && Queued(t.ring) != [] && Queued(t.ring)[0] == Queued(s.ring)[0]
              && Remaining(t.pc) == Remaining(s.pc) - (if e.Read? then 1 else 0)
  {
    StepInv(s, e);
    if e.Irq? { InterruptAppends(s.ring, e.scancode); }
    hide Interrupt, Decode;
  }

  lemma {:induction false} ReturnedGrows(s: State, es: seq<Event>)
    requires Inv(s)
    ensures s.returned <= Run(s, es).returned
    decreases |es|
  {
    if es != [] {
      StepInv(s, es[0]);
      assert s.returned <= Step(s, es[0]).returned;
      hide Step, Inv;
      ReturnedGrows(Step(s, es[0]), es[1..]);
    }
  }

  /** While a character waits, the reader returns the oldest one within seven of its own steps, however many
      interrupts come between them. */
  lemma {:induction false} ReaderReturns(s: State, es: seq<Event>)
    requires Inv(s) && Queued(s.ring) != []
    requires Reads(es) >= Remaining(s.pc)
    ensures s.returned + [Queued(s.ring)[0]] <= Run(s, es).returned
    decreases |es|
  {
    StepInv(s, es[0]);
    StepProgress(s, es[0]);
    hide Step, Inv, Queued;
    if es[0].Read? && s.pc.StoreStart? {
      ReturnedGrows(Step(s, es[0]), es[1..]);
    } else {
      ReaderReturns(Step(s, es[0]), es[1..]);
    }
  }
}
