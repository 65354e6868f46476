/** The escape-sequence decoder in front of the editor (desktop-metal/src/ansi.rs). */
module Ansi {
  import opened MachineWords

  const ESC: byte := 0x1B

  datatype Key = NoKey | Char(code: byte) | Up | Down | Left | Right | Home | End | Delete

  /** What the parser has seen: nothing, ESC, ESC [, ESC [ 3. */
  datatype Seen = Nothing | Escape | Bracket | Three

  function Step(s: Seen, b: byte): (Seen, Key) {
    match s
    case Nothing => if b == ESC then (Escape, NoKey) else (Nothing, Char(b))
    case Escape => (if b == '[' as int then Bracket else Nothing, NoKey)
    case Bracket =>
      (if b == '3' as int then Three else Nothing,
       if b == 'A' as int then Up
       else if b == 'B' as int then Down
       else if b == 'C' as int then Right
       else if b == 'D' as int then Left
       else if b == 'H' as int then Home
       else if b == 'F' as int then End
       else NoKey)
    case Three => (Nothing, if b == '~' as int then Delete else NoKey)
  }

  class AnsiParser {
    var state: Seen

    constructor ()
      ensures state == Nothing
    {
      state := Nothing;
    }

    method Feed(key: byte) returns (k: Key)
      modifies this
      ensures (state, k) == Step(old(state), key)
    {
      match state
      case Escape =>
        state := if key == '[' as int then Bracket else Nothing;
        k := NoKey;
      case Bracket =>
        state := Nothing;
        match key as char {
          case 'A' => k := Up;
          case 'B' => k := Down;
          case 'C' => k := Right;
          case 'D' => k := Left;
          case 'H' => k := Home;
          case 'F' => k := End;
          case '3' => state, k := Three, NoKey;
          case _ => k := NoKey;
        }
      case Three =>
        state := Nothing;
        k := if key == '~' as int then Delete else NoKey;
      case Nothing =>
        if key == ESC {
          state, k := Escape, NoKey;
        } else {
          k := Char(key);
        }
    }
  }

  // ---- whole streams ----

  /** The keys a stream of bytes gives, from state `s`. */
  function Decode(s: Seen, bytes: seq<byte>): seq<Key>
    decreases |bytes|
  {
    if bytes == [] then []
    else
      var (s', k) := Step(s, bytes[0]);
      (if k == NoKey then [] else [k]) + Decode(s', bytes[1..])
  }

  function StateAfter(s: Seen, bytes: seq<byte>): Seen
    decreases |bytes|
  {
    if bytes == [] then s else StateAfter(Step(s, bytes[0]).0, bytes[1..])
  }

  predicate Typed(k: Key) {
    k != NoKey && k != Char(ESC)
  }

  /** The bytes the keyboard driver sends for a key. */
  function Sequence(k: Key): seq<byte>
    requires Typed(k)
  {
    match k
    case Char(c) => [c]
    case Up => [ESC, '[' as int, 'A' as int]
    case Down => [ESC, '[' as int, 'B' as int]
    case Right => [ESC, '[' as int, 'C' as int]
    case Left => [ESC, '[' as int, 'D' as int]
    case Home => [ESC, '[' as int, 'H' as int]
    case End => [ESC, '[' as int, 'F' as int]
    case Delete => [ESC, '[' as int, '3' as int, '~' as int]
  }

  function Sequences(ks: seq<Key>): seq<byte>
    requires forall k :: k in ks ==> Typed(k)
  {
    if ks == [] then [] else Sequence(ks[0]) + Sequences(ks[1..])
  }

  lemma {:induction false} DecodeConcat(s: Seen, a: seq<byte>, b: seq<byte>)
    ensures Decode(s, a + b) == Decode(s, a) + Decode(StateAfter(s, a), b)
    ensures StateAfter(s, a + b) == StateAfter(StateAfter(s, a), b)
    decreases |a|
  {
    hide Step;
    if a == [] {
      assert a + b == b;
    } else {
      assert (a + b)[0] == a[0] && (a + b)[1..] == a[1..] + b;
      DecodeStep(s, a);
      DecodeStep(s, a + b);
      DecodeConcat(Step(s, a[0]).0, a[1..], b);
    }
  }

  lemma DecodeOne(k: Key)
    requires Typed(k)
    ensures Decode(Nothing, Sequence(k)) == [k] && StateAfter(Nothing, Sequence(k)) == Nothing
  {
    var bs := Sequence(k);
    DecodeStep(Nothing, bs);
    if !k.Char? {
      DecodeStep(Escape, bs[1..]);
      DecodeStep(Bracket, bs[1..][1..]);
    }
    if k.Delete? {
      DecodeStep(Three, bs[1..][1..][1..]);
    }
  }

  lemma DecodeStep(s: Seen, bytes: seq<byte>)
    requires bytes != []
    ensures var (s', k) := Step(s, bytes[0]);
      && Decode(s, bytes) == (if k == NoKey then [] else [k]) + Decode(s', bytes[1..])
      && StateAfter(s, bytes) == StateAfter(s', bytes[1..])
  {
  }

  /** What the driver sends for a list of keys is decoded to those keys. */
  lemma {:induction false} SequencesDecode(ks: seq<Key>)
    requires forall k :: k in ks ==> Typed(k)
    ensures Decode(Nothing, Sequences(ks)) == ks && StateAfter(Nothing, Sequences(ks)) == Nothing
  {
    if ks != [] {
      DecodeOne(ks[0]);
      DecodeConcat(Nothing, Sequence(ks[0]), Sequences(ks[1..]));
      SequencesDecode(ks[1..]);
    }
  }

  lemma {:induction false} DecodedKeysAreTyped(s: Seen, bytes: seq<byte>)
    ensures forall k :: k in Decode(s, bytes) ==> Typed(k)
    decreases |bytes|
  {
    if bytes != [] {
      DecodedKeysAreTyped(Step(s, bytes[0]).0, bytes[1..]);
    }
  }

  /** Exactly the lists of real keys without a bare ESC character can arrive. */
  lemma ReachableKeys(ks: seq<Key>)
    ensures (exists bytes :: Decode(Nothing, bytes) == ks) <==> forall k :: k in ks ==> Typed(k)
  {
    if forall k :: k in ks ==> Typed(k) {
      SequencesDecode(ks);
    } else {
      forall bytes
        ensures Decode(Nothing, bytes) != ks
      {
        DecodedKeysAreTyped(Nothing, bytes);
      }
    }
  }
}
