/** The register handlers of bot.py: `/in`, plain text, `/ni`, `/regs`,
    `/print`, `/clear` and `/clear_all`, each a pure transition of the store. */
module Registers {
  import opened Wrappers
  import opened PyText
  import opened Rom
  import opened Replies

  /** What one handler leaves behind: the new store, the chat reply, and the
      snapshot `save_rom` wrote, if it was called. */
  datatype Step = Step(rom: RomState, reply: Reply, saved: Option<RomState>)

  const InUsage := "Correct format: /in <register_label>"
  const PrintUsage := "Correct format: /print <register_label>"
  const ClearUsage := "Correct format: /clear <register_label>"

  /** The two checks that open almost every handler: the caller must be on
      the allow-list, and must not have a register open. */
  function Refusal(rom: RomState, allowed: set<UserId>, user: UserId): (r: Option<Reply>)
    ensures r == Some(Unauthorized) <==> user !in allowed
    ensures user in allowed ==> (r.Some? <==> WritingToRom(rom, user))
    ensures user in allowed && r.Some? ==> r == Some(ReleaseFirst(rom[user].active.value))
  {
    if user !in allowed then Some(Unauthorized)
    else match MustReleaseRom(rom, user)
      case Some(name) => Some(ReleaseFirst(name))
      case None => None
  }

  /** The text a register holds, with an absent register read as `""`. */
  function Stored(r: Registry, name: string): string
  {
    if name in r.regs then r.regs[name] else ""
  }

  /** A register's text after one more message: the message alone when the
      register is empty, otherwise joined to it by one newline. */
  function Appended(content: string, text: string): string
  {
    if content == "" then text else content + "\n" + text
  }

  /** Where `name` first occurs in `labels`. */
  function IndexOf(labels: seq<string>, name: string): (k: nat)
    requires name in labels
    ensures k < |labels| && labels[k] == name && name !in labels[..k]
  {
    if labels[0] == name then 0
    else
      var k := IndexOf(labels[1..], name);
      assert labels[..k + 1] == [labels[0]] + labels[1..][..k];
      k + 1
  }

  /** The key order after `del regs[name]`: every other label, in order. */
  function RemoveLabel(labels: seq<string>, name: string): (r: seq<string>)
    ensures forall l :: l in r <==> l in labels && l != name
    ensures NoDuplicates(labels) ==> NoDuplicates(r)
    ensures name !in labels ==> r == labels
  {
    if |labels| == 0 then []
    else if labels[0] == name then RemoveLabel(labels[1..], name)
    else
      var rest := RemoveLabel(labels[1..], name);
      assert NoDuplicates(labels) ==> labels[0] !in labels[1..] && NoDuplicates(labels[1..]);
      assert name !in labels ==> [labels[0]] + labels[1..] == labels;
      [labels[0]] + rest
  }

  /** Python's `del` keeps the other keys in their order: with no duplicate
      labels, removing one cuts exactly its position out of the order. */
  lemma {:induction false} RemoveLabelKeepsOrder(labels: seq<string>, name: string)
    requires NoDuplicates(labels) && name in labels
    ensures var k := IndexOf(labels, name);
      RemoveLabel(labels, name) == labels[..k] + labels[k + 1..]
  {
    if labels[0] == name {
      assert name !in labels[1..];
    } else {
      assert NoDuplicates(labels[1..]) && name in labels[1..];
      RemoveLabelKeepsOrder(labels[1..], name);
      var k := IndexOf(labels[1..], name);
      assert IndexOf(labels, name) == k + 1;
      assert labels[..k + 1] == [labels[0]] + labels[1..][..k];
      assert labels[k + 2..] == labels[1..][k + 1..];
    }
  }

  // ---------------------------------------------------------------------
  // Handlers
  // ---------------------------------------------------------------------

  /** `/in <label>`: marks `label` active. The label is not added to the
      user's registers; that happens on the first message. */
  function RegisterRequest(rom: RomState, allowed: set<UserId>, user: UserId, args: seq<string>): (s: Step)
    ensures OthersUnchanged(rom, s.rom, user)
    ensures s.saved.None?
    ensures Refusal(rom, allowed, user).Some? ==> s == Step(rom, Refusal(rom, allowed, user).value, None)
    ensures Refusal(rom, allowed, user).None? && |args| != 1 ==> s == Step(rom, Usage(InUsage), None)
    ensures Refusal(rom, allowed, user).None? && |args| == 1 ==>
      && s.reply == Silent
      && s.rom.Keys == rom.Keys + {user}
      && s.rom[user] == RegistryOf(rom, user).(active := Some(args[0]))
  {
    match Refusal(rom, allowed, user)
    case Some(refused) => Step(rom, refused, None)
    case None =>
      if |args| != 1 then Step(rom, Usage(InUsage), None)
      else
        var rom1 := CreateRegistryIfInexistent(rom, user);
        Step(rom1[user := rom1[user].(active := Some(args[0]))], Silent, None)
  }

  /** A plain text message: appended to the active register, if any. The
      source does not check the allow-list here. */
  function RegisterInsert(rom: RomState, user: UserId, text: string): (s: Step)
    ensures OthersUnchanged(rom, s.rom, user)
    ensures s.reply == Silent && s.saved.None?
    ensures !WritingToRom(rom, user) ==> s.rom == rom
    ensures WritingToRom(rom, user) ==>
      var r := rom[user];
      var name := r.active.value;
      && s.rom.Keys == rom.Keys
      && s.rom[user].active == r.active
      && s.rom[user].regs == r.regs[name := Appended(Stored(r, name), text)]
      && s.rom[user].labels == (if name in r.regs then r.labels else r.labels + [name])
  {
    if !WritingToRom(rom, user) then Step(rom, Silent, None)
    else
      var r := rom[user];
      var name := r.active.value;
      // Sets the register up to be written on.
      var r1 := if name !in r.regs then r.(regs := r.regs[name := ""], labels := r.labels + [name]) else r;
      var current := r1.regs[name];
      var separated := if current != "" then current + "\n" else current;
      var r2 := r1.(regs := r1.regs[name := separated + text]);
      assert separated + text == Appended(Stored(r, name), text) by {
        assert "" + text == text;
      }
      Step(rom[user := r2], Silent, None)
  }

  /** `/ni`: closes the active register, keeps every register's text, and
      saves the whole store. */
  function RegisterRelease(rom: RomState, allowed: set<UserId>, user: UserId): (s: Step)
    ensures OthersUnchanged(rom, s.rom, user)
    ensures user !in allowed ==> s == Step(rom, Unauthorized, None)
    ensures user in allowed && !WritingToRom(rom, user) ==> s == Step(rom, NoRegisterToRelease, None)
    ensures user in allowed && WritingToRom(rom, user) ==>
      && s.reply == Silent
      && s.saved == Some(s.rom)
      && s.rom.Keys == rom.Keys
      && s.rom[user] == rom[user].(active := None)
  {
    if user !in allowed then Step(rom, Unauthorized, None)
    else if !WritingToRom(rom, user) then Step(rom, NoRegisterToRelease, None)
    else
      var rom1 := rom[user := rom[user].(active := None)];
      Step(rom1, Silent, Some(rom1))
  }

  /** The `/regs` listing: each label followed by `", "`, the whole stripped
      of commas and spaces at both ends, then a full stop. */
  function RegsMessage(labels: seq<string>): string
  {
    Strip("Registers: " + Listing(labels), {',', ' '}) + "."
  }

  function Listing(labels: seq<string>): string
  {
    if |labels| == 0 then "" else labels[0] + ", " + Listing(labels[1..])
  }

  /** `/regs`: lists the caller's labels in insertion order. It creates an
      empty entry for a caller who has none. */
  function RegistryShow(rom: RomState, allowed: set<UserId>, user: UserId): (s: Step)
    ensures OthersUnchanged(rom, s.rom, user)
    ensures s.saved.None?
    ensures Refusal(rom, allowed, user).Some? ==> s == Step(rom, Refusal(rom, allowed, user).value, None)
    ensures Refusal(rom, allowed, user).None? ==>
      && s.rom == CreateRegistryIfInexistent(rom, user)
      && s.reply == Message(RegsMessage(RegistryOf(rom, user).labels))
  {
    match Refusal(rom, allowed, user)
    case Some(refused) => Step(rom, refused, None)
    case None =>
      var rom1 := CreateRegistryIfInexistent(rom, user);
      var labels := rom1[user].labels;
      assert labels == RegistryOf(rom, user).labels;
      Step(rom1, Message(RegsMessage(labels)), None)
  }

  /** `/print <label>`: sends the register's text; never changes the store. */
  function RegisterPrint(rom: RomState, allowed: set<UserId>, user: UserId, args: seq<string>): (s: Step)
    ensures OthersUnchanged(rom, s.rom, user)
    ensures s.rom == rom && s.saved.None?
    ensures Refusal(rom, allowed, user).Some? ==> s.reply == Refusal(rom, allowed, user).value
    ensures Refusal(rom, allowed, user).None? && |args| != 1 ==> s.reply == Usage(PrintUsage)
    ensures Refusal(rom, allowed, user).None? && |args| == 1 ==>
      if user in rom && args[0] in rom[user].regs then s.reply == Message(rom[user].regs[args[0]])
      else s.reply == RegisterEmpty(args[0])
  {
    match Refusal(rom, allowed, user)
    case Some(refused) => Step(rom, refused, None)
    case None =>
      if |args| != 1 then Step(rom, Usage(PrintUsage), None)
      else if RegisterIsEmpty(rom, user, args[0]) then Step(rom, RegisterEmpty(args[0]), None)
      else Step(rom, Message(rom[user].regs[args[0]]), None)
  }

  /** `/clear <label>`: removes exactly that register and saves the store;
      an absent label changes nothing. */
  function RegisterClear(rom: RomState, allowed: set<UserId>, user: UserId, args: seq<string>): (s: Step)
    ensures OthersUnchanged(rom, s.rom, user)
    ensures Refusal(rom, allowed, user).Some? ==> s == Step(rom, Refusal(rom, allowed, user).value, None)
    ensures Refusal(rom, allowed, user).None? && |args| != 1 ==> s == Step(rom, Usage(ClearUsage), None)
    ensures Refusal(rom, allowed, user).None? && |args| == 1 && RegisterIsEmpty(rom, user, args[0]) ==>
      s == Step(rom, RegisterEmpty(args[0]), None)
    ensures Refusal(rom, allowed, user).None? && |args| == 1 && !RegisterIsEmpty(rom, user, args[0]) ==>
      && s.reply == Silent
      && s.saved == Some(s.rom)
      && s.rom.Keys == rom.Keys
      && s.rom[user].active == rom[user].active
      && s.rom[user].labels == RemoveLabel(rom[user].labels, args[0])
      && s.rom[user].regs.Keys == rom[user].regs.Keys - {args[0]}
      && (forall l :: l in s.rom[user].regs ==> s.rom[user].regs[l] == rom[user].regs[l])
      && (forall l :: l in s.rom[user].labels <==> l in rom[user].labels && l != args[0])
  {
    match Refusal(rom, allowed, user)
    case Some(refused) => Step(rom, refused, None)
    case None =>
      if |args| != 1 then Step(rom, Usage(ClearUsage), None)
      else if RegisterIsEmpty(rom, user, args[0]) then Step(rom, RegisterEmpty(args[0]), None)
      else
        var r := rom[user];
        var rom1 := rom[user := r.(regs := r.regs - {args[0]}, labels := RemoveLabel(r.labels, args[0]))];
        Step(rom1, Silent, Some(rom1))
  }

  /** `/clear_all`: drops the caller's whole entry, if any, and saves. */
  function RomClear(rom: RomState, allowed: set<UserId>, user: UserId): (s: Step)
    ensures OthersUnchanged(rom, s.rom, user)
    ensures Refusal(rom, allowed, user).Some? ==> s == Step(rom, Refusal(rom, allowed, user).value, None)
    ensures Refusal(rom, allowed, user).None? ==>
      && s.rom == rom - {user}
      && s.reply == Silent
      && s.saved == Some(s.rom)
  {
    match Refusal(rom, allowed, user)
    case Some(refused) => Step(rom, refused, None)
    case None =>
      var rom1 := if user in rom then rom - {user} else rom;
      Step(rom1, Silent, Some(rom1))
  }

  /** A message makes the open register non-empty, so `/print` of it sends
      text from then on. */
  lemma InsertFillsRegister(rom: RomState, user: UserId, text: string)
    requires WritingToRom(rom, user)
    ensures !RegisterIsEmpty(RegisterInsert(rom, user, text).rom, user, rom[user].active.value)
  {
  }

  /** A successful `/clear` leaves the register empty, and a second `/clear`
      of the same label answers "Register X is empty.". */
  lemma ClearEmptiesRegister(rom: RomState, allowed: set<UserId>, user: UserId, name: string)
    requires Refusal(rom, allowed, user).None? && !RegisterIsEmpty(rom, user, name)
    ensures var s := RegisterClear(rom, allowed, user, [name]);
      && RegisterIsEmpty(s.rom, user, name)
      && RegisterClear(s.rom, allowed, user, [name]).reply == RegisterEmpty(name)
  {
    var s := RegisterClear(rom, allowed, user, [name]);
    assert Refusal(s.rom, allowed, user).None?;
  }

  // ---------------------------------------------------------------------
  // The /regs message format
  // ---------------------------------------------------------------------

  lemma {:induction false} ListingIsJoin(labels: seq<string>)
    requires |labels| > 0
    ensures Listing(labels) == Join(labels, ", ") + ", "
  {
    if |labels| > 1 {
      ListingIsJoin(labels[1..]);
    }
  }

  lemma {:induction false} JoinEndsWithLast(labels: seq<string>, sep: string)
    requires |labels| > 0 && |labels[|labels| - 1]| > 0
    ensures var j := Join(labels, sep); |j| > 0 && j[|j| - 1] == labels[|labels| - 1][|labels[|labels| - 1]| - 1]
  {
    if |labels| > 1 {
      JoinEndsWithLast(labels[1..], sep);
    }
  }

  /** With no registers the listing is exactly `"Registers:."`. */
  lemma RegsMessageNoRegisters()
    ensures RegsMessage([]) == "Registers:."
  {
    var cs := {',', ' '};
    var a := "Registers:";
    assert "Registers: " + Listing([]) == a + " ";
    StripRightIgnoresStrippable(a, " ", cs);
    assert a[0] == 'R' && a[|a| - 1] == ':';
    StripKeeps(a, cs);
    assert Strip(a + " ", cs) == StripLeft(StripRight(a, cs), cs);
  }

  /** When the last label does not end in a comma or a space, the listing is
      the labels joined by `", "` between `"Registers: "` and a full stop. */
  lemma RegsMessageListsLabels(labels: seq<string>)
    requires |labels| > 0
    requires var last := labels[|labels| - 1]; |last| > 0 && last[|last| - 1] !in {',', ' '}
    ensures RegsMessage(labels) == "Registers: " + Join(labels, ", ") + "."
  {
    var cs := {',', ' '};
    var a := "Registers: " + Join(labels, ", ");
    ListingIsJoin(labels);
    assert "Registers: " + Listing(labels) == a + ", ";
    StripRightIgnoresStrippable(a, ", ", cs);
    JoinEndsWithLast(labels, ", ");
    assert a[0] == 'R' && a[|a| - 1] !in cs;
    StripKeeps(a, cs);
    assert Strip(a + ", ", cs) == StripLeft(StripRight(a, cs), cs);
  }

  /** The strip also eats a trailing comma that belongs to the last label:
      a register named `","` does not show up at all. */
  lemma RegsMessageHidesCommaLabel()
    ensures RegsMessage([","]) == RegsMessage([])
  {
    var cs := {',', ' '};
    assert "Registers: " + Listing([","]) == "Registers: " + ",, ";
    StripRightIgnoresStrippable("Registers: ", ",, ", cs);
    assert Listing([]) == "";
    assert "Registers: " + Listing([]) == "Registers: ";
  }
}
