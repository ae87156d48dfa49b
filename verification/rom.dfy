/** The register store ("rom") and the predicates utils.py defines over it. */
module Rom {
  import opened Wrappers
  import opened PyText

  type UserId = int

  /** One user's entry `[active_label, {label: text}]`. `labels` is the
      insertion order of the Python dict, which `/regs` prints. */
  datatype Registry = Registry(active: Option<string>, labels: seq<string>, regs: map<string, string>)

  /** `rom = {user_id: [active_label, {label: string}]}`. */
  type RomState = map<UserId, Registry>

  /** `[None, {}]`. */
  const NewRegistry: Registry := Registry(None, [], map[])

  /** Python truthiness of the active-label slot: `None` and `""` are both false. */
  predicate Truthy(active: Option<string>)
  {
    active.Some? && active.value != ""
  }

  predicate NoDuplicates(s: seq<string>)
  {
    forall i, j :: 0 <= i < j < |s| ==> s[i] != s[j]
  }

  /** The key order lists each held label exactly once. */
  ghost predicate ValidRegistry(r: Registry)
  {
    && NoDuplicates(r.labels)
    && (forall l :: l in r.labels <==> l in r.regs)
  }

  ghost predicate ValidRom(rom: RomState)
  {
    forall u :: u in rom ==> ValidRegistry(rom[u])
  }

  /** The user's entry, or the one `create_registry_if_inexistent` would add. */
  function RegistryOf(rom: RomState, user: UserId): Registry
  {
    if user in rom then rom[user] else NewRegistry
  }

  /** Every entry but `user`'s is the same in both stores. */
  ghost predicate OthersUnchanged(rom: RomState, rom': RomState, user: UserId)
  {
    forall v :: v != user ==> (v in rom' <==> v in rom) && (v in rom ==> rom'[v] == rom[v])
  }

  /** Both stores hold the same entry for `user`, or neither holds one. */
  predicate AgreeAt(rom1: RomState, rom2: RomState, user: UserId)
  {
    (user in rom1 <==> user in rom2) && (user in rom1 ==> rom1[user] == rom2[user])
  }

  /** `must_release_rom`: the label the user has to release before other
      commands run, if any. Only a non-empty label blocks. */
  function MustReleaseRom(rom: RomState, user: UserId): (r: Option<string>)
    ensures r.Some? ==> user in rom && rom[user].active == r && r.value != ""
    ensures r.None? ==> user !in rom || rom[user].active == None || rom[user].active == Some("")
  {
    if user in rom && Truthy(rom[user].active) then rom[user].active else None
  }

  /** `writing_to_rom`: whether plain messages currently go to a register. */
  function WritingToRom(rom: RomState, user: UserId): (r: bool)
    ensures r <==> MustReleaseRom(rom, user).Some?
  {
    if user in rom then
      match rom[user].active
      case None => false
      case Some(name) => name != ""
    else false
  }

  /** `register_is_empty`: the user holds no register under `name`. A held
      register whose text is `""` is not empty. */
  function RegisterIsEmpty(rom: RomState, user: UserId, name: string): (r: bool)
    ensures !r ==> user in rom && name in rom[user].regs
    ensures user in rom && name in rom[user].regs ==> !r
  {
    user !in rom || name !in rom[user].regs
  }

  /** `create_registry_if_inexistent`: adds `[None, {}]` for an absent user
      and leaves every existing entry as it was. */
  function CreateRegistryIfInexistent(rom: RomState, user: UserId): (r: RomState)
    ensures r.Keys == rom.Keys + {user}
    ensures r[user] == RegistryOf(rom, user)
    ensures forall v :: v in rom ==> r[v] == rom[v]
    ensures OthersUnchanged(rom, r, user)
  {
    if user !in rom then rom[user := NewRegistry] else rom
  }

  lemma CreateRegistryIdempotent(rom: RomState, user: UserId)
    ensures CreateRegistryIfInexistent(CreateRegistryIfInexistent(rom, user), user)
         == CreateRegistryIfInexistent(rom, user)
  {
  }

  /** `count_lines_in_file`: the leading number of `wc -l` output, or -1
      when the command fails or its output does not start with a number. */
  function CountLines(wcOutput: Option<string>): (n: int)
    ensures wcOutput.None? ==> n == -1
    ensures wcOutput.Some? && ParseInt(Split(wcOutput.value, ' ')[0]).None? ==> n == -1
  {
    match wcOutput
    case None => -1
    case Some(out) =>
      match ParseInt(Split(out, ' ')[0])
      case Some(n) => n
      case None => -1
  }

  /** For output of the shape `<n> <file>` the count is `n`. */
  lemma {:induction false} CountLinesOfWcOutput(n: nat, rest: string)
    ensures CountLines(Some(IntToString(n) + " " + rest)) == n
  {
    var count := IntToString(n);
    assert ' ' !in count by {
      forall k | 0 <= k < |count| ensures count[k] != ' ' { }
    }
    SplitAtFirst(count, rest, ' ');
    assert count + " " + rest == count + [' '] + rest;
    ParseIntToString(n);
  }

  /** Registries in the store stay well formed when one is created. */
  lemma CreateRegistryKeepsValid(rom: RomState, user: UserId)
    requires ValidRom(rom)
    ensures ValidRom(CreateRegistryIfInexistent(rom, user))
  {
  }
}
