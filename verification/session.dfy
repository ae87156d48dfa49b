/** The register commands as one state machine: the dispatcher routes each
    chat event to its handler, and a session is a sequence of events. */
module Session {
  import opened Wrappers
  import opened PyText
  import opened Rom
  import opened Replies
  import opened Registers

  datatype Command =
    | In(args: seq<string>)      // /in <label>
    | Say(text: string)          // a plain text message
    | Ni                         // /ni
    | Regs                       // /regs
    | Print(args: seq<string>)   // /print <label>
    | Clear(args: seq<string>)   // /clear <label>
    | ClearAll                   // /clear_all

  datatype Event = Event(user: UserId, command: Command)

  /** The handler the dispatcher registers for the command. Every handler
      touches only the sender's entry, and a save writes the resulting store. */
  function Handle(rom: RomState, allowed: set<UserId>, e: Event): (s: Step)
    ensures OthersUnchanged(rom, s.rom, e.user)
    ensures s.saved.Some? ==> s.saved.value == s.rom
  {
    match e.command
    case In(args) => RegisterRequest(rom, allowed, e.user, args)
    case Say(text) => RegisterInsert(rom, e.user, text)
    case Ni => RegisterRelease(rom, allowed, e.user)
    case Regs => RegistryShow(rom, allowed, e.user)
    case Print(args) => RegisterPrint(rom, allowed, e.user, args)
    case Clear(args) => RegisterClear(rom, allowed, e.user, args)
    case ClearAll => RomClear(rom, allowed, e.user)
  }

  /** The store after the events, handled one at a time in order. */
  function Run(rom: RomState, allowed: set<UserId>, events: seq<Event>): RomState
    decreases |events|
  {
    if |events| == 0 then rom else Run(Handle(rom, allowed, events[0]).rom, allowed, events[1..])
  }

  lemma {:induction false} RunConcat(rom: RomState, allowed: set<UserId>, a: seq<Event>, b: seq<Event>)
    ensures Run(rom, allowed, a + b) == Run(Run(rom, allowed, a), allowed, b)
    decreases |a|
  {
    if |a| > 0 {
      assert (a + b)[1..] == a[1..] + b;
      RunConcat(Handle(rom, allowed, a[0]).rom, allowed, a[1..], b);
    } else {
      assert a + b == b;
    }
  }

  // ---------------------------------------------------------------------
  // The release guard
  // ---------------------------------------------------------------------

  /** While a register is open, every command other than a plain message and
      `/ni` is answered with "Release register X." and changes nothing. */
  lemma GuardBlocks(rom: RomState, allowed: set<UserId>, e: Event)
    requires e.user in allowed && WritingToRom(rom, e.user)
    requires !e.command.Say? && !e.command.Ni?
    ensures Handle(rom, allowed, e) == Step(rom, ReleaseFirst(rom[e.user].active.value), None)
  {
  }

  /** A second `/in` never replaces the open register: it is refused and the
      first label stays active. */
  lemma SecondOpenRefused(rom: RomState, allowed: set<UserId>, u: UserId, first: string, second: string)
    requires u in allowed && !WritingToRom(rom, u) && first != ""
    ensures var rom1 := Handle(rom, allowed, Event(u, In([first]))).rom;
      && rom1[u].active == Some(first)
      && Handle(rom1, allowed, Event(u, In([second]))) == Step(rom1, ReleaseFirst(first), None)
  {
  }

  /** The open register changes only through `/in` and `/ni`; while it stays
      open its label stays the same. */
  lemma ActiveChangesOnlyByInOrNi(rom: RomState, allowed: set<UserId>, e: Event)
    ensures var s := Handle(rom, allowed, e);
      && (WritingToRom(s.rom, e.user) != WritingToRom(rom, e.user) ==> e.command.In? || e.command.Ni?)
      && (WritingToRom(rom, e.user) && WritingToRom(s.rom, e.user) ==> s.rom[e.user].active == rom[e.user].active)
  {
  }

  // ---------------------------------------------------------------------
  // Lazy creation of labels
  // ---------------------------------------------------------------------

  /** `/in x` then `/ni` puts back the registers as they were: `x` is not
      created by opening it. */
  lemma OpenThenReleaseCreatesNothing(rom: RomState, allowed: set<UserId>, u: UserId, x: string)
    requires u in allowed && !WritingToRom(rom, u) && x != ""
    ensures var rom' := Run(rom, allowed, [Event(u, In([x])), Event(u, Ni)]);
      && u in rom'
      && rom'[u] == RegistryOf(rom, u).(active := None)
      && (x !in RegistryOf(rom, u).regs ==> x !in rom'[u].regs)
  {
    var rom1 := Handle(rom, allowed, Event(u, In([x]))).rom;
    var rom2 := Handle(rom1, allowed, Event(u, Ni)).rom;
    assert Run(rom, allowed, [Event(u, In([x])), Event(u, Ni)]) == rom2 by {
      assert [Event(u, In([x])), Event(u, Ni)][1..] == [Event(u, Ni)];
      assert [Event(u, Ni)][1..] == [];
      assert Run(rom2, allowed, []) == rom2;
      assert Run(rom1, allowed, [Event(u, Ni)]) == rom2;
    }
  }

  // ---------------------------------------------------------------------
  // Appending messages
  // ---------------------------------------------------------------------

  /** The register text after a run of messages, one `Appended` at a time. */
  function AppendAll(content: string, texts: seq<string>): string
    decreases |texts|
  {
    if |texts| == 0 then content else AppendAll(Appended(content, texts[0]), texts[1..])
  }

  /** Messages end up newline-separated, with no leading separator, as long
      as the first one does not meet an empty register with empty text. */
  lemma {:induction false} AppendAllJoins(content: string, texts: seq<string>)
    requires |texts| > 0
    requires content != "" || texts[0] != ""
    ensures AppendAll(content, texts)
         == if content == "" then Join(texts, "\n") else content + "\n" + Join(texts, "\n")
    decreases |texts|
  {
    var t, rest := texts[0], texts[1..];
    var next := Appended(content, t);
    assert AppendAll(content, texts) == AppendAll(next, rest);
    assert [t] + rest == texts;
    JoinCons(t, rest, "\n");
    if |rest| > 0 {
      AppendAllJoins(next, rest);
      var joined := Join(rest, "\n");
      if content != "" {
        assert next + "\n" + joined == content + "\n" + (t + "\n" + joined);
      }
    }
  }

  function Says(u: UserId, texts: seq<string>): (events: seq<Event>)
    ensures |events| == |texts|
  {
    if |texts| == 0 then [] else [Event(u, Say(texts[0]))] + Says(u, texts[1..])
  }

  /** While a register is open, messages accumulate in it and nothing else
      about the sender's entry changes. */
  lemma {:induction false} RunSays(rom: RomState, allowed: set<UserId>, u: UserId, texts: seq<string>)
    requires WritingToRom(rom, u)
    ensures var rom' := Run(rom, allowed, Says(u, texts));
      var name := rom[u].active.value;
      && WritingToRom(rom', u)
      && rom'[u].active == rom[u].active
      && Stored(rom'[u], name) == AppendAll(Stored(rom[u], name), texts)
      && (forall l :: l != name ==> (l in rom'[u].regs <==> l in rom[u].regs))
      && (forall l :: l != name && l in rom[u].regs ==> rom'[u].regs[l] == rom[u].regs[l])
  {
    if |texts| > 0 {
      var s := Handle(rom, allowed, Event(u, Say(texts[0])));
      assert Says(u, texts)[1..] == Says(u, texts[1..]);
      RunSays(s.rom, allowed, u, texts[1..]);
    }
  }

  /** Opening `x`, sending messages and closing it leaves `x` holding the
      messages joined by newlines, which `/print x` sends back. */
  lemma RoundTrip(rom: RomState, allowed: set<UserId>, u: UserId, x: string, texts: seq<string>)
    requires u in allowed && !WritingToRom(rom, u) && x != ""
    requires |texts| > 0
    requires Stored(RegistryOf(rom, u), x) != "" || texts[0] != ""
    ensures var rom' := Run(rom, allowed, [Event(u, In([x]))] + Says(u, texts) + [Event(u, Ni)]);
      var prior := Stored(RegistryOf(rom, u), x);
      && !WritingToRom(rom', u)
      && Handle(rom', allowed, Event(u, Print([x]))).reply
         == Message(if prior == "" then Join(texts, "\n") else prior + "\n" + Join(texts, "\n"))
  {
    var open := [Event(u, In([x]))];
    var rom1 := Handle(rom, allowed, Event(u, In([x]))).rom;
    assert Run(rom, allowed, open) == rom1 by {
      assert Run(rom1, allowed, []) == rom1;
    }
    RunSays(rom1, allowed, u, texts);
    var rom2 := Run(rom1, allowed, Says(u, texts));
    var rom3 := Handle(rom2, allowed, Event(u, Ni)).rom;
    assert Run(rom2, allowed, [Event(u, Ni)]) == rom3 by {
      assert Run(rom3, allowed, []) == rom3;
    }
    RunConcat(rom, allowed, open, Says(u, texts));
    RunConcat(rom, allowed, open + Says(u, texts), [Event(u, Ni)]);
    AppendAllJoins(Stored(RegistryOf(rom, u), x), texts);
  }

  /** The events `/in x`, "a", "b", `/ni`, written as an open, two
      messages and a release. */
  lemma ExampleScript(u: UserId)
    ensures [Event(u, In(["x"]))] + Says(u, ["a", "b"]) + [Event(u, Ni)]
         == [Event(u, In(["x"])), Event(u, Say("a")), Event(u, Say("b")), Event(u, Ni)]
  {
    assert ["a", "b"][1..] == ["b"];
    assert ["b"][1..] == [];
    assert Says(u, ["b"]) == [Event(u, Say("b"))];
  }

  /** A two-message instance of `RoundTrip`: `/in x`, "a", "b", `/ni`,
      `/print x` answers "a\nb". */
  lemma RoundTripExample(u: UserId)
    ensures var events := [Event(u, In(["x"])), Event(u, Say("a")), Event(u, Say("b")), Event(u, Ni)];
      Handle(Run(map[], {u}, events), {u}, Event(u, Print(["x"]))).reply == Message("a\nb")
  {
    assert Stored(RegistryOf(map[], u), "x") == "";
    RoundTrip(map[], {u}, u, "x", ["a", "b"]);
    ExampleScript(u);
    assert Join(["a", "b"], "\n") == "a\nb" by {
      JoinCons("a", ["b"], "\n");
    }
  }

  // ---------------------------------------------------------------------
  // Users are isolated from one another
  // ---------------------------------------------------------------------

  /** A handler reads only the sender's entry: two stores that agree on it
      give the same reply and again agree on it. */
  lemma HandleIsLocal(rom1: RomState, rom2: RomState, allowed: set<UserId>, e: Event)
    requires AgreeAt(rom1, rom2, e.user)
    ensures var s1 := Handle(rom1, allowed, e); var s2 := Handle(rom2, allowed, e);
      AgreeAt(s1.rom, s2.rom, e.user) && s1.reply == s2.reply
  {
    var u := e.user;
    assert Refusal(rom1, allowed, u) == Refusal(rom2, allowed, u);
    assert WritingToRom(rom1, u) == WritingToRom(rom2, u);
    match e.command
    case In(args) =>
    case Say(text) =>
    case Ni =>
    case Regs =>
      assert RegistryOf(rom1, u) == RegistryOf(rom2, u);
    case Print(args) =>
    case Clear(args) =>
    case ClearAll =>
  }

  /** The sender's own events, in order. */
  function EventsOf(events: seq<Event>, v: UserId): (mine: seq<Event>)
    ensures forall i :: 0 <= i < |mine| ==> mine[i].user == v
  {
    if |events| == 0 then []
    else (if events[0].user == v then [events[0]] else []) + EventsOf(events[1..], v)
  }

  /** Events of other users never change a user's entry. */
  lemma {:induction false} RunOthersUntouched(rom: RomState, allowed: set<UserId>, events: seq<Event>, v: UserId)
    requires forall i :: 0 <= i < |events| ==> events[i].user != v
    ensures AgreeAt(rom, Run(rom, allowed, events), v)
    decreases |events|
  {
    if |events| > 0 {
      RunOthersUntouched(Handle(rom, allowed, events[0]).rom, allowed, events[1..], v);
    }
  }

  /** A user's entry after an interleaved session is what their own events
      alone would have produced. */
  lemma {:induction false} RunSeesOnlyOwnEvents(rom1: RomState, rom2: RomState, allowed: set<UserId>, events: seq<Event>, v: UserId)
    requires AgreeAt(rom1, rom2, v)
    ensures AgreeAt(Run(rom1, allowed, events), Run(rom2, allowed, EventsOf(events, v)), v)
    decreases |events|
  {
    if |events| > 0 {
      var e := events[0];
      var next1 := Handle(rom1, allowed, e).rom;
      if e.user == v {
        HandleIsLocal(rom1, rom2, allowed, e);
        var next2 := Handle(rom2, allowed, e).rom;
        RunSeesOnlyOwnEvents(next1, next2, allowed, events[1..], v);
        assert EventsOf(events, v) == [e] + EventsOf(events[1..], v);
        assert (EventsOf(events, v))[1..] == EventsOf(events[1..], v);
      } else {
        RunSeesOnlyOwnEvents(next1, rom2, allowed, events[1..], v);
        assert EventsOf(events, v) == EventsOf(events[1..], v);
      }
    } else {
      assert EventsOf(events, v) == [];
    }
  }

  // ---------------------------------------------------------------------
  // Well-formedness of the key order
  // ---------------------------------------------------------------------

  /** Every handler keeps each entry's key order in step with its registers. */
  lemma HandleKeepsValid(rom: RomState, allowed: set<UserId>, e: Event)
    requires ValidRom(rom)
    ensures ValidRom(Handle(rom, allowed, e).rom)
  {
    var s := Handle(rom, allowed, e);
    forall v | v in s.rom
      ensures ValidRegistry(s.rom[v])
    {
      if v == e.user && e.command.Say? && WritingToRom(rom, v) {
        var r := rom[v];
        var name := r.active.value;
        var r' := s.rom[v];
        if name !in r.regs {
          assert name !in r.labels;
          forall i, j | 0 <= i < j < |r'.labels|
            ensures r'.labels[i] != r'.labels[j]
          {
            if j == |r.labels| {
              assert r'.labels[i] in r.labels;
            }
          }
        }
      }
    }
  }

  lemma {:induction false} RunKeepsValid(rom: RomState, allowed: set<UserId>, events: seq<Event>)
    requires ValidRom(rom)
    ensures ValidRom(Run(rom, allowed, events))
    decreases |events|
  {
    if |events| > 0 {
      HandleKeepsValid(rom, allowed, events[0]);
      RunKeepsValid(Handle(rom, allowed, events[0]).rom, allowed, events[1..]);
    }
  }
}
