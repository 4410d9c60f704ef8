/**
 * Keyboard input of xpresser/xutils.py: `type` and its helper that types
 * a string one character at a time. Each keyboard event the library would
 * inject is recorded in a trace instead.
 */
module XUtils {

  /** A keyboard event: a key symbol typed, or a key code pressed or released. */
  datatype KeyEvent = Sym(keyval: int) | Press(keycode: int) | Release(keycode: int)

  /** What `type` is given: a plain string, or a list of parts that may name special keys. */
  datatype TypeInput = Text(s: string) | Parts(parts: seq<string>)

  /** The key codes of the named special keys. */
  const SpecialKeys: map<string, int> := map[
    "<Ctrl>" := 37, "<Shift>" := 50, "<Alt>" := 64, "<Meta>" := 133,
    "<Tab>" := 23, "<Super>" := 133, "<Fn>" := 151, "<PgUp>" := 112,
    "<PgDn>" := 117, "<Delete>" := 119, "<Home>" := 110, "<Esc>" := 9,
    "<F1>" := 67, "<F2>" := 68, "<F3>" := 69, "<F4>" := 70, "<F5>" := 71,
    "<F6>" := 72, "<F7>" := 73, "<F8>" := 74, "<F9>" := 75, "<F10>" := 76,
    "<F11>" := 95, "<F12>" := 96, "<Enter>" := 36]

  /** One `Sym` event per character, in order; `toKeyval` is `Gdk.unicode_to_keyval` on the code point. */
  function SymEvents(s: string, toKeyval: int -> int): (events: seq<KeyEvent>)
    ensures |events| == |s|
    ensures forall i :: 0 <= i < |s| ==> events[i] == Sym(toKeyval(s[i] as int))
  {
    if s == [] then [] else SymEvents(s[..|s| - 1], toKeyval) + [Sym(toKeyval(s[|s| - 1] as int))]
  }

  /** The events one part of a list emits when it is reached. */
  function PartEvents(part: string, toKeyval: int -> int): (events: seq<KeyEvent>)
    // a special key is one press of its table code; any other part is typed, one symbol per character
    ensures part in SpecialKeys ==> events == [Press(SpecialKeys[part])]
    ensures part !in SpecialKeys ==> |events| == |part| && forall i :: 0 <= i < |events| ==> events[i].Sym?
  {
    if part in SpecialKeys then [Press(SpecialKeys[part])] else SymEvents(part, toKeyval)
  }

  /** The events the parts emit, in order, before anything is released. */
  function PartsEvents(parts: seq<string>, toKeyval: int -> int): (events: seq<KeyEvent>)
    // nothing is released while the parts are processed
    ensures forall i :: 0 <= i < |events| ==> !events[i].Release?
  {
    if parts == [] then []
    else PartsEvents(parts[..|parts| - 1], toKeyval) + PartEvents(parts[|parts| - 1], toKeyval)
  }

  /** The key codes of the special-key parts, in order. */
  function PressedKeys(parts: seq<string>): (codes: seq<int>)
    ensures |codes| <= |parts|
  {
    if parts == [] then []
    else
      var last := parts[|parts| - 1];
      PressedKeys(parts[..|parts| - 1]) + (if last in SpecialKeys then [SpecialKeys[last]] else [])
  }

  function Reverse<T>(s: seq<T>): (r: seq<T>)
    ensures |r| == |s|
    ensures forall i :: 0 <= i < |s| ==> r[i] == s[|s| - 1 - i]
  {
    if s == [] then [] else [s[|s| - 1]] + Reverse(s[..|s| - 1])
  }

  /** One `Release` event per key code, in the order given. */
  function Releases(codes: seq<int>): (events: seq<KeyEvent>)
    ensures |events| == |codes|
    ensures forall i :: 0 <= i < |codes| ==> events[i] == Release(codes[i])
  {
    seq(|codes|, i requires 0 <= i < |codes| => Release(codes[i]))
  }

  /** The whole trace of `type`. */
  function TypeTrace(input: TypeInput, toKeyval: int -> int): seq<KeyEvent>
  {
    match input
    case Text(s) => SymEvents(s, toKeyval)
    case Parts(parts) => PartsEvents(parts, toKeyval) + Releases(Reverse(PressedKeys(parts)))
  }

  lemma PartsStep(parts: seq<string>, n: nat, toKeyval: int -> int)
    requires n < |parts|
    ensures PartsEvents(parts[..n + 1], toKeyval) == PartsEvents(parts[..n], toKeyval) + PartEvents(parts[n], toKeyval)
    ensures PressedKeys(parts[..n + 1]) ==
              PressedKeys(parts[..n]) + (if parts[n] in SpecialKeys then [SpecialKeys[parts[n]]] else [])
  {
    assert parts[..n + 1][..n] == parts[..n];
  }

  lemma ReleasesStep(codes: seq<int>, n: nat)
    requires n < |codes|
    ensures Releases(codes[..n + 1]) == Releases(codes[..n]) + [Release(codes[n])]
  {
    var left, right := Releases(codes[..n + 1]), Releases(codes[..n]) + [Release(codes[n])];
    assert |left| == |right|;
    forall i | 0 <= i < |left| ensures left[i] == right[i] {
    }
  }

  /** `__type_standard`: type each character of the string as a key symbol. */
  method TypeStandard(s: string, toKeyval: int -> int) returns (events: seq<KeyEvent>)
    ensures events == SymEvents(s, toKeyval)
  {
    events := [];
    for n := 0 to |s|
      invariant events == SymEvents(s[..n], toKeyval)
    {
      assert s[..n + 1][..n] == s[..n];
      events := events + [Sym(toKeyval(s[n] as int))];
    }
    assert s[..|s|] == s;
  }

  /**
   * The first loop of `type`: press each special key as it is reached,
   * remembering its code, and type the other parts.
   */
  method PressAndTypeParts(parts: seq<string>, toKeyval: int -> int) returns (events: seq<KeyEvent>, keysToPress: seq<int>)
    ensures events == PartsEvents(parts, toKeyval)
    ensures keysToPress == PressedKeys(parts)
  {
    keysToPress := [];
    events := [];
    for n := 0 to |parts|
      invariant events == PartsEvents(parts[..n], toKeyval)
      invariant keysToPress == PressedKeys(parts[..n])
    {
      PartsStep(parts, n, toKeyval);
      var part := parts[n];
      if part in SpecialKeys {
        keysToPress := keysToPress + [SpecialKeys[part]];
        events := events + [Press(keysToPress[|keysToPress| - 1])];
      } else {
        var typed := TypeStandard(part, toKeyval);
        events := events + typed;
      }
    }
    assert parts[..|parts|] == parts;
  }

  /** The last loop of `type`: release each key code in the order given, after the events so far. */
  method ReleaseKeys(before: seq<KeyEvent>, keys: seq<int>) returns (events: seq<KeyEvent>)
    ensures events == before + Releases(keys)
  {
    events := before;
    for n := 0 to |keys|
      invariant events == before + Releases(keys[..n])
    {
      ReleasesStep(keys, n);
      events := events + [Release(keys[n])];
    }
    assert keys[..|keys|] == keys;
  }

  /**
   * `type`: for a list, press each special key as it is reached and type
   * the other parts, then release the pressed keys in reverse order; a
   * plain string is just typed. The hold between pressing and releasing
   * is not modelled.
   */
  method Type(input: TypeInput, toKeyval: int -> int) returns (events: seq<KeyEvent>)
    ensures events == TypeTrace(input, toKeyval)
  {
    match input
    case Parts(parts) =>
      var keysToPress;
      events, keysToPress := PressAndTypeParts(parts, toKeyval);
      keysToPress := Reverse(keysToPress);
      events := ReleaseKeys(events, keysToPress);
    case Text(s) =>
      events := TypeStandard(s, toKeyval);
  }
}
