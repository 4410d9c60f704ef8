/** What the event trace of `type` in xpresser/xutils.py looks like. */
module XUtilsProperties {
  import opened XUtils

  /** The three kinds of keyboard event. */
  datatype Kind = SymKind | PressKind | ReleaseKind

  predicate IsKind(e: KeyEvent, kind: Kind)
  {
    match kind
    case SymKind => e.Sym?
    case PressKind => e.Press?
    case ReleaseKind => e.Release?
  }

  function Payload(e: KeyEvent): int
  {
    match e
    case Sym(keyval) => keyval
    case Press(keycode) => keycode
    case Release(keycode) => keycode
  }

  /** The key symbols, or key codes, of the events of one kind, in trace order. */
  function Codes(events: seq<KeyEvent>, kind: Kind): seq<int>
  {
    if events == [] then []
    else
      var last := events[|events| - 1];
      Codes(events[..|events| - 1], kind) + (if IsKind(last, kind) then [Payload(last)] else [])
  }

  /** The key symbols of a string's characters. */
  function Keyvals(s: string, toKeyval: int -> int): (r: seq<int>)
    ensures |r| == |s|
  {
    if s == [] then [] else Keyvals(s[..|s| - 1], toKeyval) + [toKeyval(s[|s| - 1] as int)]
  }

  /** The parts of a list that are not special keys, run together. */
  function PlainText(parts: seq<string>): string
  {
    if parts == [] then []
    else
      var last := parts[|parts| - 1];
      PlainText(parts[..|parts| - 1]) + (if last in SpecialKeys then [] else last)
  }

  lemma {:induction false} CodesAppend(a: seq<KeyEvent>, b: seq<KeyEvent>, kind: Kind)
    ensures Codes(a + b, kind) == Codes(a, kind) + Codes(b, kind)
    decreases |b|
  {
    if b == [] {
      assert a + b == a;
    } else {
      assert (a + b)[..|a + b| - 1] == a + b[..|b| - 1];
      CodesAppend(a, b[..|b| - 1], kind);
    }
  }

  lemma {:induction false} KeyvalsAppend(a: string, b: string, toKeyval: int -> int)
    ensures Keyvals(a + b, toKeyval) == Keyvals(a, toKeyval) + Keyvals(b, toKeyval)
    decreases |b|
  {
    if b == [] {
      assert a + b == a;
    } else {
      assert (a + b)[..|a + b| - 1] == a + b[..|b| - 1];
      KeyvalsAppend(a, b[..|b| - 1], toKeyval);
    }
  }

  lemma {:induction false} CodesOfSyms(s: string, toKeyval: int -> int)
    ensures Codes(SymEvents(s, toKeyval), SymKind) == Keyvals(s, toKeyval)
    ensures Codes(SymEvents(s, toKeyval), PressKind) == []
    ensures Codes(SymEvents(s, toKeyval), ReleaseKind) == []
    decreases |s|
  {
    if s != [] {
      CodesOfSyms(s[..|s| - 1], toKeyval);
      var events := SymEvents(s, toKeyval);
      assert events[..|events| - 1] == SymEvents(s[..|s| - 1], toKeyval);
    }
  }

  lemma {:induction false} CodesOfReleases(codes: seq<int>)
    ensures Codes(Releases(codes), ReleaseKind) == codes
    ensures Codes(Releases(codes), PressKind) == []
    ensures Codes(Releases(codes), SymKind) == []
    decreases |codes|
  {
    if codes != [] {
      var n := |codes| - 1;
      ReleasesStep(codes, n);
      assert codes[..n + 1] == codes;
      var events := Releases(codes);
      assert events[..|events| - 1] == Releases(codes[..n]);
      CodesOfReleases(codes[..n]);
    }
  }

  lemma {:induction false} CodesOfParts(parts: seq<string>, toKeyval: int -> int)
    ensures Codes(PartsEvents(parts, toKeyval), PressKind) == PressedKeys(parts)
    ensures Codes(PartsEvents(parts, toKeyval), ReleaseKind) == []
    ensures Codes(PartsEvents(parts, toKeyval), SymKind) == Keyvals(PlainText(parts), toKeyval)
    decreases |parts|
  {
    if parts != [] {
      var init, last := parts[..|parts| - 1], parts[|parts| - 1];
      CodesOfParts(init, toKeyval);
      forall kind: Kind
        ensures Codes(PartsEvents(parts, toKeyval), kind) ==
                Codes(PartsEvents(init, toKeyval), kind) + Codes(PartEvents(last, toKeyval), kind)
      {
        CodesAppend(PartsEvents(init, toKeyval), PartEvents(last, toKeyval), kind);
      }
      KeyvalsAppend(PlainText(init), if last in SpecialKeys then [] else last, toKeyval);
      if last in SpecialKeys {
        assert [Press(SpecialKeys[last])][..0] == [];
      } else {
        CodesOfSyms(last, toKeyval);
      }
    }
  }

  // ----- the trace of `type` -----

  /** A plain string is typed one key symbol per character, in order, and no key is pressed or released. */
  lemma TextIsTypedAsSymbols(s: string, toKeyval: int -> int)
    ensures |TypeTrace(Text(s), toKeyval)| == |s|
    ensures forall i :: 0 <= i < |s| ==> TypeTrace(Text(s), toKeyval)[i] == Sym(toKeyval(s[i] as int))
    ensures Codes(TypeTrace(Text(s), toKeyval), PressKind) == []
    ensures Codes(TypeTrace(Text(s), toKeyval), ReleaseKind) == []
  {
    CodesOfSyms(s, toKeyval);
  }

  /**
   * For a list, the pressed key codes are the table codes of its special-key
   * parts in list order, and the typed symbols are those of the other parts'
   * characters in list order.
   */
  lemma PartsPressSpecialKeys(parts: seq<string>, toKeyval: int -> int)
    ensures Codes(TypeTrace(Parts(parts), toKeyval), PressKind) == PressedKeys(parts)
    ensures Codes(TypeTrace(Parts(parts), toKeyval), SymKind) == Keyvals(PlainText(parts), toKeyval)
  {
    var pressed := Reverse(PressedKeys(parts));
    CodesOfParts(parts, toKeyval);
    CodesOfReleases(pressed);
    CodesAppend(PartsEvents(parts, toKeyval), Releases(pressed), PressKind);
    CodesAppend(PartsEvents(parts, toKeyval), Releases(pressed), SymKind);
  }

  /** Every pressed key is released once, in the reverse of the order of pressing. */
  lemma ReleasesMirrorPresses(parts: seq<string>, toKeyval: int -> int)
    ensures var trace := TypeTrace(Parts(parts), toKeyval);
            Codes(trace, ReleaseKind) == Reverse(Codes(trace, PressKind)) &&
            |Codes(trace, ReleaseKind)| == |Codes(trace, PressKind)|
  {
    var pressed := Reverse(PressedKeys(parts));
    PartsPressSpecialKeys(parts, toKeyval);
    CodesOfParts(parts, toKeyval);
    CodesOfReleases(pressed);
    CodesAppend(PartsEvents(parts, toKeyval), Releases(pressed), ReleaseKind);
  }

  /** Releases come last: once a key is released, no symbol is typed and no key is pressed. */
  lemma ReleasesComeLast(parts: seq<string>, toKeyval: int -> int)
    ensures var trace := TypeTrace(Parts(parts), toKeyval);
            forall i, j :: 0 <= i < j < |trace| && trace[i].Release? ==> trace[j].Release?
  {
    var trace := TypeTrace(Parts(parts), toKeyval);
    var b := |PartsEvents(parts, toKeyval)|;
    assert forall i :: 0 <= i < b ==> trace[i] == PartsEvents(parts, toKeyval)[i];
    assert forall i :: b <= i < |trace| ==> trace[i] == Releases(Reverse(PressedKeys(parts)))[i - b];
  }

  lemma {:induction false} PartsEventsAppend(a: seq<string>, b: seq<string>, toKeyval: int -> int)
    ensures PartsEvents(a + b, toKeyval) == PartsEvents(a, toKeyval) + PartsEvents(b, toKeyval)
    decreases |b|
  {
    if b == [] {
      assert a + b == a;
    } else {
      assert (a + b)[..|a + b| - 1] == a + b[..|b| - 1];
      PartsEventsAppend(a, b[..|b| - 1], toKeyval);
    }
  }

  lemma PartsEventsSingle(part: string, toKeyval: int -> int)
    ensures PartsEvents([part], toKeyval) == PartEvents(part, toKeyval)
  {
    assert [part][..0] == [];
  }

  /**
   * Each part emits its own events in its own place, between those of the
   * parts before it and those of the parts after it.
   */
  lemma PartsEmitInPlace(before: seq<string>, part: string, after: seq<string>, toKeyval: int -> int)
    ensures PartsEvents(before + [part] + after, toKeyval) ==
              PartsEvents(before, toKeyval) + PartEvents(part, toKeyval) + PartsEvents(after, toKeyval)
  {
    PartsEventsSingle(part, toKeyval);
    PartsEventsAppend(before, [part], toKeyval);
    PartsEventsAppend(before + [part], after, toKeyval);
  }

  /**
   * Every special-key name is bracketed, `<...>`, so a part that is a single
   * character, or any part not so bracketed, is typed as text. Meta and
   * Super share one key code.
   */
  lemma SpecialKeyNames(part: string)
    requires |part| < 3 || part[0] != '<' || part[|part| - 1] != '>'
    ensures part !in SpecialKeys
    ensures SpecialKeys["<Meta>"] == SpecialKeys["<Super>"] == 133
  {
  }

  /** Typing Ctrl+C: press 37, type the `c` symbol, release 37. */
  lemma CtrlC(toKeyval: int -> int)
    ensures TypeTrace(Parts(["<Ctrl>", "c"]), toKeyval) == [Press(37), Sym(toKeyval('c' as int)), Release(37)]
  {
    var parts := ["<Ctrl>", "c"];
    assert "c" !in SpecialKeys;
    assert parts[..1] == ["<Ctrl>"];
    assert PressedKeys(parts) == [37];
    assert PartsEvents(parts, toKeyval) == [Press(37), Sym(toKeyval('c' as int))];
  }
}
