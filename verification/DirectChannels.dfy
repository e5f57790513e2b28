/**
  Direct-message channel names (`backend/src/models/channel.rs`), their normalisation
  (`backend/src/mattermost_compat/mappers.rs`), and the get-or-create and soft delete that rely on
  them (`backend/src/api/channels.rs`).
 */
module DirectNames {
  import opened Wrappers
  import opened Uuids

  function SortUserIds(a: Uuid, b: Uuid): (Uuid, Uuid) {
    if AtMost(a, b) then (a, b) else (b, a)
  }

  function CanonicalName(a: Uuid, b: Uuid): string {
    var (first, second) := SortUserIds(a, b);
    Text(first) + "__" + Text(second)
  }

  function LegacyName(a: Uuid, b: Uuid): string {
    var (first, second) := SortUserIds(a, b);
    "dm_" + Text(first) + "_" + Text(second)
  }

  predicate Occurs(s: string, sep: string, i: nat) {
    i + |sep| <= |s| && s[i..i + |sep|] == sep
  }

  /** The first occurrence of `sep` at or after `i`. */
  function Find(s: string, sep: string, i: nat): (r: Option<nat>)
    ensures r.Some? ==> i <= r.value && Occurs(s, sep, r.value)
    decreases |s| - i
  {
    if i + |sep| > |s| then None
    else if Occurs(s, sep, i) then Some(i)
    else if i < |s| then Find(s, sep, i + 1)
    else None
  }

  function SplitOnce(s: string, sep: string): Option<(string, string)> {
    var k := Find(s, sep, 0);
    if k.Some? then Some((s[..k.value], s[k.value + |sep|..])) else None
  }

  function ParsePair(left: string, right: string): Option<(Uuid, Uuid)> {
    var l, r := ParseStr(left), ParseStr(right);
    if l.Some? && r.Some? then Some(SortUserIds(l.value, r.value)) else None
  }

  function ParseDirectName(name: string): Option<(Uuid, Uuid)> {
    var canonical := SplitOnce(name, "__");
    if canonical.Some? then ParsePair(canonical.value.0, canonical.value.1)
    else if |name| >= 3 && name[..3] == "dm_" then
      var legacy := SplitOnce(name[3..], "_");
      if legacy.Some? then ParsePair(legacy.value.0, legacy.value.1) else None
    else None
  }

  /** The name that a direct channel shows to clients. */
  function Normalise(name: string): string {
    var p := ParseDirectName(name);
    if p.Some? then CanonicalName(p.value.0, p.value.1) else name
  }

  // --------------------------------------------------------------------------- proofs

  lemma {:induction false} FindFirst(s: string, sep: string, i: nat, k: nat)
    requires i <= k && Occurs(s, sep, k) && forall j :: i <= j < k ==> !Occurs(s, sep, j)
    ensures Find(s, sep, i) == Some(k)
    decreases k - i
  {
    if i < k {
      assert !Occurs(s, sep, i);
      FindFirst(s, sep, i + 1, k);
    }
  }

  lemma {:induction false} SplitAt(left: string, sep: string, right: string)
    requires |sep| > 0 && sep[0] == '_' && '_' !in left
    ensures SplitOnce(left + sep + right, sep) == Some((left, right))
  {
    var s := left + sep + right;
    forall j | 0 <= j < |left| ensures !Occurs(s, sep, j) {
      assert s[j] == left[j] != '_';
      if j + |sep| <= |s| {
        assert s[j..j + |sep|][0] == s[j];
      }
    }
    assert s[|left|..|left| + |sep|] == sep;
    FindFirst(s, sep, 0, |left|);
    assert s[..|left|] == left && s[|left| + |sep|..] == right;
  }

  lemma {:induction false} SortCommutes(a: Uuid, b: Uuid)
    ensures SortUserIds(a, b) == SortUserIds(b, a)
    ensures var (x, y) := SortUserIds(a, b); SortUserIds(x, y) == (x, y)
    ensures var (x, y) := SortUserIds(a, b); {x, y} == {a, b}
  {
    Total(a, b);
  }

  lemma {:induction false} CanonicalParses(a: Uuid, b: Uuid)
    ensures ParseDirectName(CanonicalName(a, b)) == Some(SortUserIds(a, b))
  {
    var (x, y) := SortUserIds(a, b);
    SortCommutes(a, b);
    TextHasNoUnderscore(x);
    SplitAt(Text(x), "__", Text(y));
    TextReads(x);
    TextReads(y);
  }

  lemma {:induction false} FindNone(s: string, sep: string, i: nat)
    requires forall j: nat :: i <= j ==> !Occurs(s, sep, j)
    ensures Find(s, sep, i) == None
    decreases |s| - i
  {
  }

  /** A legacy name contains no double underscore. */
  lemma {:induction false} LegacyHasNoDouble(a: Uuid, b: Uuid)
    ensures Find(LegacyName(a, b), "__", 0) == None
  {
    var (x, y) := SortUserIds(a, b);
    var s := LegacyName(a, b);
    TextHasNoUnderscore(x);
    TextHasNoUnderscore(y);
    forall j | 3 <= j < 39 ensures s[j] != '_' { assert s[j] == Text(x)[j - 3]; }
    forall j | 40 <= j < |s| ensures s[j] != '_' { assert s[j] == Text(y)[j - 40]; }
    forall j: nat ensures !Occurs(s, "__", j) {
      if j + 2 <= |s| {
        assert s[j] != '_' || s[j + 1] != '_';
        assert s[j..j + 2][0] == s[j] && s[j..j + 2][1] == s[j + 1];
      }
    }
    FindNone(s, "__", 0);
  }

  lemma {:induction false} LegacyParses(a: Uuid, b: Uuid)
    ensures ParseDirectName(LegacyName(a, b)) == Some(SortUserIds(a, b))
  {
    var (x, y) := SortUserIds(a, b);
    var s := LegacyName(a, b);
    LegacyHasNoDouble(a, b);
    SortCommutes(a, b);
    TextHasNoUnderscore(x);
    SplitAt(Text(x), "_", Text(y));
    assert s[..3] == "dm_" && s[3..] == Text(x) + "_" + Text(y);
    TextReads(x);
    TextReads(y);
  }

  /** Both printers, in either argument order, parse to the same sorted pair. */
  lemma {:induction false} NamesParse(a: Uuid, b: Uuid)
    ensures ParseDirectName(CanonicalName(a, b)) == ParseDirectName(CanonicalName(b, a)) == Some(SortUserIds(a, b))
    ensures ParseDirectName(LegacyName(a, b)) == ParseDirectName(LegacyName(b, a)) == Some(SortUserIds(a, b))
  {
    SortCommutes(a, b);
    CanonicalParses(a, b);
    LegacyParses(a, b);
  }

  /** Each format names an unordered pair injectively, and no canonical name is a legacy name. */
  lemma {:induction false} NamesIdentifyPairs(a: Uuid, b: Uuid, c: Uuid, d: Uuid)
    ensures CanonicalName(a, b) == CanonicalName(c, d) <==> {a, b} == {c, d}
    ensures LegacyName(a, b) == LegacyName(c, d) <==> {a, b} == {c, d}
    ensures CanonicalName(a, b) != LegacyName(c, d)
  {
    NamesParse(a, b);
    NamesParse(c, d);
    SortCommutes(a, b);
    SortCommutes(c, d);
    if {a, b} == {c, d} {
      assert (a == c && b == d) || (a == d && b == c) by {
        assert a in {c, d} && b in {c, d} && c in {a, b} && d in {a, b};
      }
    }
    LegacyHasNoDouble(c, d);
    var (x, y) := SortUserIds(a, b);
    TextHasNoUnderscore(x);
    SplitAt(Text(x), "__", Text(y));
  }

  /** The user whose bytes come first is named first. */
  lemma {:induction false} NamesAre(a: Uuid, b: Uuid, k: nat)
    requires k < 16 && a[..k] == b[..k] && a[k] < b[k]
    ensures CanonicalName(a, b) == CanonicalName(b, a) == Text(a) + "__" + Text(b)
    ensures LegacyName(a, b) == LegacyName(b, a) == "dm_" + Text(a) + "_" + Text(b)
  {
    FirstDifference(a, b, k);
  }

  /** A legacy name is shown as the canonical one, and a name without underscores as it is. */
  lemma {:induction false} NormaliseIs(a: Uuid, b: Uuid, name: string)
    ensures Normalise(LegacyName(a, b)) == Normalise(CanonicalName(a, b)) == CanonicalName(a, b)
    ensures '_' !in name ==> ParseDirectName(name) == None && Normalise(name) == name
  {
    NamesParse(a, b);
    SortCommutes(a, b);
    if '_' !in name {
      forall j: nat ensures !Occurs(name, "__", j) {
        if j + 2 <= |name| {
          assert name[j] in name && name[j..j + 2][0] == name[j];
        }
      }
      FindNone(name, "__", 0);
      assert |name| >= 3 ==> name[2] in name;
    }
  }

  /** Normalising twice is normalising once, and every spelling of a pair gets the canonical name. */
  lemma {:induction false} NormaliseIdempotent(name: string)
    ensures Normalise(Normalise(name)) == Normalise(name)
    ensures ParseDirectName(Normalise(name)) == ParseDirectName(name)
  {
    var p := ParseDirectName(name);
    if p.Some? {
      CanonicalParses(p.value.0, p.value.1);
      ParsedIsSorted(name);
    }
  }

  lemma {:induction false} ParsedIsSorted(name: string)
    requires ParseDirectName(name).Some?
    ensures var (x, y) := ParseDirectName(name).value; SortUserIds(x, y) == (x, y)
  {
    var canonical := SplitOnce(name, "__");
    var halves := if canonical.Some? then canonical.value else SplitOnce(name[3..], "_").value;
    SortCommutes(ParseStr(halves.0).value, ParseStr(halves.1).value);
  }
}

module DirectStore {
  import opened Wrappers
  import opened Uuids
  import opened DirectNames

  datatype Kind = Public | Private | Direct | Group

  /** A channel row. Rows are kept in creation order and identified by their position. */
  datatype Channel = Channel(team: nat, kind: Kind, name: string, deleted: bool)

  type Table = seq<Channel>

  datatype ChannelError = TargetRequired | NotInTeam | NameTaken | Forbidden | NotFound

  /** `isMember` says whether the target user belongs to the team. */
  datatype Request = Request(team: nat, user: Uuid, target: Uuid, isMember: bool)

  /** A direct channel of the requested pair, deleted or not. */
  predicate Named(c: Channel, q: Request) {
    && c.team == q.team && c.kind == Direct
    && (c.name == CanonicalName(q.user, q.target) || c.name == LegacyName(q.user, q.target))
  }

  predicate Matches(c: Channel, q: Request) {
    Named(c, q) && !c.deleted
  }

  /** The oldest matching row at or after position `i`. */
  function Lookup(t: Table, q: Request, i: nat): (r: Option<nat>)
    requires i <= |t|
    ensures r.Some? ==> i <= r.value < |t| && Matches(t[r.value], q) && forall k :: i <= k < r.value ==> !Matches(t[k], q)
    ensures r.None? ==> forall k :: i <= k < |t| ==> !Matches(t[k], q)
    decreases |t| - i
  {
    if i == |t| then None else if Matches(t[i], q) then Some(i) else Lookup(t, q, i + 1)
  }

  /** The same without regard to deletion. */
  function LookupAny(t: Table, q: Request, i: nat): (r: Option<nat>)
    requires i <= |t|
    ensures r.Some? ==> i <= r.value < |t| && Named(t[r.value], q) && forall k :: i <= k < r.value ==> !Named(t[k], q)
    ensures r.None? ==> forall k :: i <= k < |t| ==> !Named(t[k], q)
    decreases |t| - i
  {
    if i == |t| then None else if Named(t[i], q) then Some(i) else LookupAny(t, q, i + 1)
  }

  /** The row that holds a name. Names are unique in a team, deleted rows included. */
  function Holder(t: Table, team: nat, name: string, i: nat): (r: Option<nat>)
    requires i <= |t|
    ensures r.Some? ==> i <= r.value < |t| && t[r.value].team == team && t[r.value].name == name
    ensures r.None? ==> forall k :: i <= k < |t| ==> t[k].team != team || t[k].name != name
    decreases |t| - i
  {
    if i == |t| then None else if t[i].team == team && t[i].name == name then Some(i) else Holder(t, team, name, i + 1)
  }

  predicate Taken(t: Table, team: nat, name: string) { Holder(t, team, name, 0).Some? }

  function NewChannel(q: Request): Channel {
    Channel(q.team, Direct, CanonicalName(q.user, q.target), false)
  }

  /** The direct branch of `create_channel`. */
  function CreateDm(t: Table, q: Request): (Table, Result<nat, ChannelError>) {
    var found := Lookup(t, q, 0);
    if found.Some? then (t, Ok(found.value))
    else if !q.isMember then (t, Err(NotInTeam))
    else if Taken(t, q.team, CanonicalName(q.user, q.target)) then (t, Err(NameTaken))
    else (t + [NewChannel(q)], Ok(|t|))
  }

  /** The second interface looks at deleted rows too, and takes over whatever holds the name. */
  function CreateDmV4(t: Table, q: Request): (Table, nat) {
    var found, holder := LookupAny(t, q, 0), Holder(t, q.team, CanonicalName(q.user, q.target), 0);
    if found.Some? then (t, found.value)
    else if holder.Some? then (t, holder.value)
    else (t + [NewChannel(q)], |t|)
  }

  datatype Event =
    | OpenDm(q: Request)
    | OpenDmV4(q: Request)
    | CreateOther(team: nat, kind: Kind, name: string)
    | AdminCreate(team: nat, kind: Kind, name: string)
    | Delete(row: nat)
    | Restore(row: nat)

  function Marked(t: Table, row: nat, deleted: bool): Table {
    if row < |t| then t[row := t[row].(deleted := deleted)] else t
  }

  /** An insert under the uniqueness constraint. */
  function Inserted(t: Table, c: Channel): Table {
    if Taken(t, c.team, c.name) then t else t + [c]
  }

  /** Users create other channels by another branch, which never makes direct ones; administrators
      insert a channel of any kind under any name. */
  function Step(t: Table, e: Event): Table {
    match e
    case OpenDm(q) => CreateDm(t, q).0
    case OpenDmV4(q) => CreateDmV4(t, q).0
    case CreateOther(team, kind, name) =>
      if kind == Direct then t else Inserted(t, Channel(team, kind, name, false))
    case AdminCreate(team, kind, name) => Inserted(t, Channel(team, kind, name, false))
    case Delete(row) => Marked(t, row, true)
    case Restore(row) => Marked(t, row, false)
  }

  function Run(t: Table, es: seq<Event>): Table
    decreases |es|
  {
    if es == [] then t else Run(Step(t, es[0]), es[1..])
  }

  // ---------------------------------------------------------------------- the object

  class ChannelStore {
    var channels: Table
    var members: set<(nat, Uuid)>

    constructor ()
      ensures channels == [] && members == {}
    {
      channels, members := [], {};
    }

    method AddMembers(row: nat, ids: seq<Uuid>)
      modifies this`members
      ensures members == old(members) + set k | 0 <= k < |ids| :: (row, ids[k])
    {
      for i := 0 to |ids|
        invariant members == old(members) + set k | 0 <= k < i :: (row, ids[k])
      {
        members := members + {(row, ids[i])};
      }
    }

    /** Adds both users of a pair. */
    method AddPair(row: nat, pair: (Uuid, Uuid))
      modifies this`members
      ensures members == old(members) + {(row, pair.0), (row, pair.1)}
    {
      var ids := [pair.0, pair.1];
      AddMembers(row, ids);
      assert (set k | 0 <= k < |ids| :: (row, ids[k])) == {(row, ids[0]), (row, ids[1])};
    }

    /** The oldest live channel of the pair. */
    method SelectDirect(q: Request) returns (row: Option<nat>)
      ensures row == Lookup(channels, q, 0)
    {
      var dmName, legacyName := CanonicalName(q.user, q.target), LegacyName(q.user, q.target);
      for i := 0 to |channels|
        invariant Lookup(channels, q, 0) == Lookup(channels, q, i)
      {
        var c := channels[i];
        if c.team == q.team && c.kind == Direct && (c.name == dmName || c.name == legacyName) && !c.deleted {
          return Some(i);
        }
      }
      return None;
    }

    /** `ensure_dm_membership`: the members of a live direct channel are read off its name; for any other
        channel nothing happens. */
    method EnsureMembership(row: nat)
      modifies this`members
      ensures members ==
              if row < |channels| && Live(channels[row]) && ParseDirectName(channels[row].name).Some?
              then var (x, y) := ParseDirectName(channels[row].name).value; old(members) + {(row, x), (row, y)}
              else old(members)
    {
      if row < |channels| && !channels[row].deleted && channels[row].kind == Direct {
        var pair := ParseDirectName(channels[row].name);
        if pair.Some? {
          AddPair(row, pair.value);
        }
      }
    }

    /** The direct-message branch of `create_channel`. In the channel that it returns, new or not,
        both users are members. */
    method CreateDirectChannel(team: nat, user: Uuid, target: Option<Uuid>, isMember: bool)
      returns (r: Result<nat, ChannelError>)
      modifies this
      ensures (channels, r) == if target.None? then (old(channels), Err(TargetRequired))
                               else CreateDm(old(channels), Request(team, user, target.value, isMember))
      ensures members == if r.Err? then old(members)
                         else old(members) + {(r.value, user), (r.value, target.value)}
    {
      if target.None? {
        return Err(TargetRequired);
      }
      var q := Request(team, user, target.value, isMember);
      var existing := SelectDirect(q);
      if existing.Some? {
        EnsureMembership(existing.value);
        NamedPair(channels[existing.value], q);
        return Ok(existing.value);
      }
      if !isMember {
        return Err(NotInTeam);
      }
      if Taken(channels, team, CanonicalName(user, q.target)) {
        return Err(NameTaken);
      }
      r := Ok(|channels|);
      channels := channels + [NewChannel(q)];
      SortCommutes(user, q.target);
      AddPair(r.value, SortUserIds(user, q.target));
    }

    /** `create_direct_channel` of the second interface. */
    method CreateDirectChannelV4(q: Request) returns (row: nat)
      modifies this
      ensures (channels, row) == CreateDmV4(old(channels), q)
      ensures members == old(members) + {(row, q.user), (row, q.target)}
    {
      SortCommutes(q.user, q.target);
      var found := LookupAny(channels, q, 0);
      if found.None? {
        found := Holder(channels, q.team, CanonicalName(q.user, q.target), 0);
      }
      if found.None? {
        found := Some(|channels|);
        channels := channels + [NewChannel(q)];
      }
      row := found.value;
      AddPair(row, SortUserIds(q.user, q.target));
    }

    /** `delete_channel`; `allowed` says whether the caller created or administers the channel. */
    method DeleteChannel(row: nat, allowed: bool) returns (r: Result<nat, ChannelError>)
      modifies this`channels
      ensures r == if !allowed then Err(Forbidden)
                   else if row < |old(channels)| && !old(channels)[row].deleted then Ok(row)
                   else Err(NotFound)
      ensures channels == if r.Ok? then Step(old(channels), Delete(row)) else old(channels)
      ensures r.Ok? ==> channels == old(channels)[row := old(channels)[row].(deleted := true)]
    {
      if !allowed {
        return Err(Forbidden);
      }
      if row >= |channels| || channels[row].deleted {
        return Err(NotFound);
      }
      channels := channels[row := channels[row].(deleted := true)];
      return Ok(row);
    }

    /** `create_admin_channel` */
    method CreateAdminChannel(team: nat, kind: Kind, name: string, isAdmin: bool) returns (r: Result<nat, ChannelError>)
      modifies this`channels
      ensures r == if !isAdmin then Err(Forbidden)
                   else if Taken(old(channels), team, name) then Err(NameTaken)
                   else Ok(|old(channels)|)
      ensures channels == if isAdmin then Step(old(channels), AdminCreate(team, kind, name)) else old(channels)
      ensures r.Ok? ==> channels == old(channels) + [Channel(team, kind, name, false)]
    {
      if !isAdmin {
        return Err(Forbidden);
      }
      if Taken(channels, team, name) {
        return Err(NameTaken);
      }
      r := Ok(|channels|);
      channels := channels + [Channel(team, kind, name, false)];
    }

    /** `restore_channel` */
    method RestoreChannel(row: nat, allowed: bool) returns (r: Result<nat, ChannelError>)
      modifies this`channels
      ensures r == if !allowed then Err(Forbidden) else if row < |old(channels)| then Ok(row) else Err(NotFound)
      ensures channels == if r.Ok? then Step(old(channels), Restore(row)) else old(channels)
      ensures r.Ok? ==> channels == old(channels)[row := old(channels)[row].(deleted := false)]
    {
      if !allowed {
        return Err(Forbidden);
      }
      if row >= |channels| {
        return Err(NotFound);
      }
      channels := channels[row := channels[row].(deleted := false)];
      return Ok(row);
    }
  }

  /** The name of a channel of the requested pair gives that pair. */
  lemma {:induction false} NamedPair(c: Channel, q: Request)
    requires Named(c, q)
    ensures ParseDirectName(c.name) == Some(SortUserIds(q.user, q.target))
    ensures var (x, y) := SortUserIds(q.user, q.target); {x, y} == {q.user, q.target}
    ensures SortUserIds(q.user, q.target) == (q.user, q.target) || SortUserIds(q.user, q.target) == (q.target, q.user)
  {
    NamesParse(q.user, q.target);
    SortCommutes(q.user, q.target);
  }

  // ----------------------------------------------------------------- one live channel

  predicate Live(c: Channel) { c.kind == Direct && !c.deleted }

  /** A direct row is named by one of the two printers. */
  predicate WellNamed(c: Channel) {
    c.kind == Direct ==>
      && ParseDirectName(c.name).Some?
      && var (x, y) := ParseDirectName(c.name).value;
      c.name == CanonicalName(x, y) || c.name == LegacyName(x, y)
  }

  /** Two live channels of the same team whose names `pair` does not tell apart. */
  predicate Rivals<K(==)>(c: Channel, d: Channel, pair: string -> K) {
    Live(c) && Live(d) && c.team == d.team && pair(c.name) == pair(d.name)
  }

  ghost predicate NoRivals<K>(t: Table, pair: string -> K) {
    forall i, j :: 0 <= i < j < |t| ==> !Rivals(t[i], t[j], pair)
  }

  /** No row becomes a rival of another by a restore of `row`. */
  ghost predicate NoRivalOf<K>(t: Table, row: nat, pair: string -> K) {
    row < |t| && t[row].deleted ==> forall j :: 0 <= j < |t| ==> !Rivals(t[j], t[row].(deleted := false), pair)
  }

  lemma {:induction false} AppendKeeps<K>(t: Table, c: Channel, pair: string -> K)
    requires NoRivals(t, pair) && forall j :: 0 <= j < |t| ==> !Rivals(t[j], c, pair)
    ensures NoRivals(t + [c], pair)
  {
  }

  lemma {:induction false} DeleteKeeps<K>(t: Table, row: nat, pair: string -> K)
    requires NoRivals(t, pair)
    ensures NoRivals(Marked(t, row, true), pair)
  {
    var u := Marked(t, row, true);
    forall i, j | 0 <= i < j < |u| ensures !Rivals(u[i], u[j], pair) {
      assert !Rivals(t[i], t[j], pair);
    }
  }

  lemma {:induction false} RestoreKeeps<K>(t: Table, row: nat, pair: string -> K)
    requires NoRivals(t, pair)
    ensures NoRivals(Marked(t, row, false), pair) <==> NoRivalOf(t, row, pair)
  {
    var u := Marked(t, row, false);
    if NoRivalOf(t, row, pair) {
      forall i, j | 0 <= i < j < |u| ensures !Rivals(u[i], u[j], pair) {
        assert !Rivals(t[i], t[j], pair);
        assert row < |t| && t[row].deleted ==> !Rivals(t[i], u[row], pair) && !Rivals(t[j], u[row], pair);
      }
    } else {
      var j :| 0 <= j < |t| && Rivals(t[j], u[row], pair);
      assert Rivals(u[j], u[row], pair) && Rivals(u[row], u[j], pair);
    }
  }

  /** Each team and pair of users has at most one live direct channel. */
  ghost predicate OneLive(t: Table) {
    NoRivals(t, ParseDirectName)
  }

  ghost predicate AllWellNamed(t: Table) {
    forall i :: 0 <= i < |t| ==> WellNamed(t[i])
  }

  ghost predicate Inv(t: Table) {
    AllWellNamed(t) && OneLive(t)
  }

  lemma {:induction false} MatchesIsPair(c: Channel, q: Request)
    requires WellNamed(c)
    ensures Named(c, q) <==>
      c.kind == Direct && c.team == q.team && ParseDirectName(c.name) == Some(SortUserIds(q.user, q.target))
  {
    NamesParse(q.user, q.target);
    var (x, y) := SortUserIds(q.user, q.target);
    SortCommutes(q.user, q.target);
    assert CanonicalName(x, y) == CanonicalName(q.user, q.target);
    assert LegacyName(x, y) == LegacyName(q.user, q.target);
  }

  lemma {:induction false} NewRowWellNamed(q: Request)
    ensures WellNamed(NewChannel(q)) && Named(NewChannel(q), q)
    ensures ParseDirectName(NewChannel(q).name) == Some(SortUserIds(q.user, q.target))
    ensures Normalise(NewChannel(q).name) == NewChannel(q).name
  {
    NamesParse(q.user, q.target);
    SortCommutes(q.user, q.target);
  }

  lemma {:induction false} MarkedWellNamed(t: Table, row: nat, deleted: bool)
    requires AllWellNamed(t)
    ensures AllWellNamed(Marked(t, row, deleted))
  {
    var u := Marked(t, row, deleted);
    forall k | 0 <= k < |u| ensures WellNamed(u[k]) {
      assert WellNamed(t[k]) && u[k] == t[k].(deleted := u[k].deleted);
    }
  }

  /** A new channel of a pair without a live one. */
  lemma {:induction false} CreateKeeps(t: Table, q: Request)
    requires Inv(t) && Lookup(t, q, 0).None?
    ensures Inv(t + [NewChannel(q)])
  {
    NewRowWellNamed(q);
    forall i | 0 <= i < |t| ensures !Rivals(t[i], NewChannel(q), ParseDirectName) {
      MatchesIsPair(t[i], q);
    }
    AppendKeeps(t, NewChannel(q), ParseDirectName);
  }

  lemma {:induction false} OpenKeeps(t: Table, q: Request)
    requires Inv(t)
    ensures Inv(CreateDm(t, q).0) && Inv(CreateDmV4(t, q).0)
  {
    if Lookup(t, q, 0).None? {
      CreateKeeps(t, q);
    }
  }

  /** No other live row is of the same team and pair, unless the restore changes nothing. */
  ghost predicate Clear(t: Table, row: nat) {
    NoRivalOf(t, row, ParseDirectName)
  }

  /** Restoring a row keeps at most one live channel exactly when there is no live one already. */
  lemma {:induction false} RestoreKeepsExactly(t: Table, row: nat)
    requires OneLive(t)
    ensures OneLive(Step(t, Restore(row))) <==> Clear(t, row)
  {
    assert Step(t, Restore(row)) == Marked(t, row, false);
    RestoreKeeps(t, row, ParseDirectName);
  }

  /** A direct channel that an administrator inserts is named by a printer, and its pair has no live one. */
  ghost predicate Harmless(t: Table, c: Channel) {
    !Taken(t, c.team, c.name) ==> WellNamed(c) && forall j :: 0 <= j < |t| ==> !Rivals(t[j], c, ParseDirectName)
  }

  /** An insert keeps the invariant exactly when it is harmless. */
  lemma {:induction false} InsertKeepsExactly(t: Table, c: Channel)
    requires Inv(t)
    ensures Inv(Inserted(t, c)) <==> Harmless(t, c)
  {
    var u := t + [c];
    if Taken(t, c.team, c.name) {
      return;
    }
    if Harmless(t, c) {
      AppendKeeps(t, c, ParseDirectName);
    } else if WellNamed(c) {
      var j :| 0 <= j < |t| && Rivals(t[j], c, ParseDirectName);
      assert Rivals(u[j], u[|t|], ParseDirectName);
    } else {
      assert u[|t|] == c;
    }
  }

  /** The step is not a restore or an insert that gives a pair a second live channel. */
  ghost predicate CarefulStep(t: Table, e: Event) {
    && (e.Restore? ==> Clear(t, e.row))
    && (e.AdminCreate? ==> Harmless(t, Channel(e.team, e.kind, e.name, false)))
  }

  lemma {:induction false} StepKeeps(t: Table, e: Event)
    requires Inv(t) && CarefulStep(t, e)
    ensures Inv(Step(t, e))
  {
    match e {
      case OpenDm(q) => OpenKeeps(t, q);
      case OpenDmV4(q) => OpenKeeps(t, q);
      case CreateOther(team, kind, name) =>
        if kind != Direct { InsertKeepsExactly(t, Channel(team, kind, name, false)); }
      case AdminCreate(team, kind, name) => InsertKeepsExactly(t, Channel(team, kind, name, false));
      case Delete(row) =>
        MarkedWellNamed(t, row, true);
        DeleteKeeps(t, row, ParseDirectName);
      case Restore(row) =>
        MarkedWellNamed(t, row, false);
        RestoreKeepsExactly(t, row);
    }
  }

  /** Every restore and every insert by an administrator comes when the pair has no live channel. */
  ghost predicate Careful(t: Table, es: seq<Event>)
    decreases |es|
  {
    es == [] || (CarefulStep(t, es[0]) && Careful(Step(t, es[0]), es[1..]))
  }

  lemma {:induction false} RunKeeps(t: Table, es: seq<Event>)
    requires Inv(t) && Careful(t, es)
    ensures Inv(Run(t, es))
    decreases |es|
  {
    if es != [] {
      StepKeeps(t, es[0]);
      RunKeeps(Step(t, es[0]), es[1..]);
    }
  }

  lemma {:induction false} FindsOnly(t: Table, q: Request, k: nat)
    requires OneLive(t) && k < |t| && Matches(t[k], q)
    ensures Lookup(t, q, 0) == Some(k)
  {
    var j := Lookup(t, q, 0).value;
    NamedPair(t[j], q);
    NamedPair(t[k], q);
    assert Rivals(t[j], t[k], ParseDirectName) && Rivals(t[k], t[j], ParseDirectName);
  }

  /** Runs start from the empty table, and a first request of a team member makes the first channel. */
  lemma {:induction false} FirstChannel(q: Request)
    requires q.isMember
    ensures Inv([]) && Run([], [OpenDm(q)]) == [NewChannel(q)] && CreateDm([], q).1 == Ok(0)
    ensures Inv([NewChannel(q)]) && Matches(NewChannel(q), q)
  {
    CreateKeeps([], q);
    assert [] + [NewChannel(q)] == [NewChannel(q)];
    assert [OpenDm(q)][1..] == [];
  }

  /** In every such run, each team and pair of users has at most one live direct channel, under either
      name and through either interface. */
  lemma {:induction false} AtMostOneLive(t: Table, es: seq<Event>, q: Request, i: nat, j: nat)
    requires Inv(t) && Careful(t, es) && i < |Run(t, es)| && j < |Run(t, es)|
    requires Matches(Run(t, es)[i], q) && Matches(Run(t, es)[j], q)
    ensures i == j
  {
    RunKeeps(t, es);
    FindsOnly(Run(t, es), q, i);
    FindsOnly(Run(t, es), q, j);
  }

  lemma {:induction false} RowKept(t: Table, es: seq<Event>, k: nat)
    requires k < |t| && !t[k].deleted && forall i :: 0 <= i < |es| ==> es[i] != Delete(k)
    ensures k < |Run(t, es)| && Run(t, es)[k] == t[k]
    decreases |es|
  {
    if es != [] {
      assert es[0] != Delete(k);
      RowKept(Step(t, es[0]), es[1..], k);
    }
  }

  /** Once either user has opened the channel, both get the same one until it is deleted. */
  lemma {:induction false} BothSidesShare(t: Table, q: Request, es: seq<Event>, isMember: bool)
    requires Inv(t) && CreateDm(t, q).1.Ok? && Careful(CreateDm(t, q).0, es)
    requires forall i :: 0 <= i < |es| ==> es[i] != Delete(CreateDm(t, q).1.value)
    ensures var (u, r) := CreateDm(t, q);
            var later := Run(u, es);
            && CreateDm(later, Request(q.team, q.user, q.target, isMember)) == (later, r)
            && CreateDm(later, Request(q.team, q.target, q.user, isMember)) == (later, r)
  {
    var (u, r) := CreateDm(t, q);
    var k := r.value;
    StepKeeps(t, OpenDm(q));
    assert Step(t, OpenDm(q)) == u;
    RowKept(u, es, k);
    RunKeeps(u, es);
    SortCommutes(q.user, q.target);
    FindsOnly(Run(u, es), Request(q.team, q.user, q.target, isMember), k);
    FindsOnly(Run(u, es), Request(q.team, q.target, q.user, isMember), k);
  }

  /** The second interface returns the live channel exactly if the pair has no older row, deleted
      under its other name. */
  lemma {:induction false} InterfacesAgreeExactly(t: Table, q: Request, k: nat)
    requires OneLive(t) && k < |t| && Matches(t[k], q)
    ensures CreateDm(t, q) == (t, Ok(k)) && CreateDmV4(t, q).0 == t
    ensures CreateDmV4(t, q).1 == k <==> forall j :: 0 <= j < k ==> !Named(t[j], q)
  {
    FindsOnly(t, q, k);
  }

  /** Unless a channel of another kind holds the canonical name, the second interface returns a row of
      the requested pair, and adds one exactly if there is none, deleted ones included. */
  lemma {:induction false} V4Returns(t: Table, q: Request)
    requires forall i :: 0 <= i < |t| && t[i].team == q.team && t[i].name == CanonicalName(q.user, q.target) ==> t[i].kind == Direct
    ensures var (u, k) := CreateDmV4(t, q);
            && k < |u| && Named(u[k], q)
            && (if exists i :: 0 <= i < |t| && Named(t[i], q) then u == t else u == t + [u[k]] && !u[k].deleted)
  {
  }

  // ------------------------------------------------------------ restores at any moment

  /** The uniqueness constraint on team and name. */
  ghost predicate UniqueNames(t: Table) {
    forall i, j :: 0 <= i < j < |t| && t[i].team == t[j].team ==> t[i].name != t[j].name
  }

  predicate Misnamed(c: Channel, canonical: string -> string) {
    c.kind == Direct && canonical(c.name) != c.name
  }

  /** Some channel that is not direct holds the canonical name of `c`. */
  ghost predicate BlockedBy(t: Table, c: Channel, canonical: string -> string) {
    exists k :: 0 <= k < |t| && t[k].team == c.team && t[k].kind != Direct && t[k].name == canonical(c.name)
  }

  ghost predicate MisnamedBlocked(t: Table, canonical: string -> string) {
    forall i :: 0 <= i < |t| && Misnamed(t[i], canonical) ==> BlockedBy(t, t[i], canonical)
  }

  /** The row has the legacy name of its pair. */
  predicate Legacy(c: Channel) { Misnamed(c, Normalise) }

  ghost predicate Blocked(t: Table, c: Channel) { BlockedBy(t, c, Normalise) }

  ghost predicate LegacyBlocked(t: Table) { MisnamedBlocked(t, Normalise) }

  /** A well-named row has the canonical or the legacy name of its pair. */
  lemma {:induction false} TwoNames(c: Channel)
    requires c.kind == Direct && WellNamed(c)
    ensures var (x, y) := ParseDirectName(c.name).value;
            Normalise(c.name) == CanonicalName(x, y) && (Legacy(c) ==> c.name == LegacyName(x, y))
  {
  }

  ghost predicate OnlyMarks(t: Table, u: Table) {
    |t| <= |u| <= |t| + 1 && forall k :: 0 <= k < |t| ==> u[k] == t[k].(deleted := u[k].deleted)
  }

  /** A step changes only deletion marks, and adds at most one row, whose name is new and, if the row
      is direct, canonical. */
  ghost predicate Grows(t: Table, u: Table) {
    && OnlyMarks(t, u)
    && (|t| < |u| ==> !Taken(t, u[|t|].team, u[|t|].name) && WellNamed(u[|t|]) && !Legacy(u[|t|]))
  }

  lemma {:induction false} NewRowGrows(t: Table, q: Request)
    requires !Taken(t, q.team, CanonicalName(q.user, q.target))
    ensures Grows(t, t + [NewChannel(q)])
  {
    NewRowWellNamed(q);
  }

  /** Administrators insert no direct channels. */
  predicate NoAdminDirect(es: seq<Event>) {
    forall i :: 0 <= i < |es| ==> !(es[i].AdminCreate? && es[i].kind == Direct)
  }

  lemma {:induction false} StepGrows(t: Table, e: Event)
    requires !(e.AdminCreate? && e.kind == Direct)
    ensures Grows(t, Step(t, e))
  {
    if (e.OpenDm? || e.OpenDmV4?) && Step(t, e) != t {
      NewRowGrows(t, e.q);
    }
  }

  lemma {:induction false} WellNamedKept(t: Table, u: Table)
    requires Grows(t, u) && AllWellNamed(t)
    ensures AllWellNamed(u)
  {
    forall k | 0 <= k < |u| ensures WellNamed(u[k]) {
      assert k < |t| ==> WellNamed(t[k]);
    }
  }

  lemma {:induction false} UniqueKept(t: Table, u: Table)
    requires Grows(t, u) && UniqueNames(t)
    ensures UniqueNames(u)
  {
  }

  lemma {:induction false} BlocksKept(t: Table, u: Table, canonical: string -> string)
    requires OnlyMarks(t, u) && (|t| < |u| ==> !Misnamed(u[|t|], canonical)) && MisnamedBlocked(t, canonical)
    ensures MisnamedBlocked(u, canonical)
  {
    forall i | 0 <= i < |u| && Misnamed(u[i], canonical) ensures BlockedBy(u, u[i], canonical) {
      assert Misnamed(t[i], canonical);
      var k :| 0 <= k < |t| && t[k].team == t[i].team && t[k].kind != Direct && t[k].name == canonical(t[i].name);
      assert u[k] == t[k].(deleted := u[k].deleted);
    }
  }

  /** Two live rows of one pair have both its names, so one of them is a legacy row that is not blocked. */
  lemma {:induction false} OneIsFree(t: Table, i: nat, j: nat) returns (l: nat)
    requires AllWellNamed(t) && UniqueNames(t) && i < j < |t| && Rivals(t[i], t[j], ParseDirectName)
    ensures l < |t| && Legacy(t[l]) && !Blocked(t, t[l])
  {
    TwoNames(t[i]);
    TwoNames(t[j]);
    assert t[i].name != t[j].name;
    var c;
    l, c := if Legacy(t[i]) then i else j, if Legacy(t[i]) then j else i;
    assert t[c].name == Normalise(t[l].name);
    assert forall k :: 0 <= k < |t| && k != c && t[k].team == t[c].team ==> t[k].name != t[c].name;
  }

  lemma {:induction false} BlockedIsOneLive(t: Table)
    requires AllWellNamed(t) && UniqueNames(t) && LegacyBlocked(t)
    ensures OneLive(t)
  {
    forall i, j | 0 <= i < j < |t| ensures !Rivals(t[i], t[j], ParseDirectName) {
      if Rivals(t[i], t[j], ParseDirectName) {
        var l := OneIsFree(t, i, j);
      }
    }
  }

  lemma {:induction false} BlockedRuns(t: Table, es: seq<Event>)
    requires AllWellNamed(t) && UniqueNames(t) && LegacyBlocked(t) && NoAdminDirect(es)
    ensures OneLive(Run(t, es))
    decreases |es|
  {
    if es == [] {
      BlockedIsOneLive(t);
    } else {
      var u := Step(t, es[0]);
      StepGrows(t, es[0]);
      WellNamedKept(t, u);
      UniqueKept(t, u);
      BlocksKept(t, u, Normalise);
      BlockedRuns(u, es[1..]);
    }
  }

  lemma {:induction false} TwoMatch(t: Table, q: Request, i: nat, j: nat)
    requires i < j < |t| && Matches(t[i], q) && Matches(t[j], q)
    ensures !OneLive(t)
  {
    NamesParse(q.user, q.target);
    assert Rivals(t[i], t[j], ParseDirectName);
  }

  /** Both names of the pair exist already: restore both rows. */
  lemma {:induction false} RestoreBoth(t: Table, i: nat, j: nat, q: Request) returns (es: seq<Event>)
    requires i < |t| && j < |t| && i != j && Named(t[i], q) && Named(t[j], q)
    ensures NoAdminDirect(es) && !OneLive(Run(t, es))
  {
    es := [Restore(i), Restore(j)];
    ThreeSteps(t, es);
    TwoMatch(Marked(Marked(t, i, false), j, false), q, Min(i, j), Max(i, j));
  }

  lemma {:induction false} OpensCanonical(t: Table, i: nat, q: Request)
    requires UniqueNames(t) && i < |t| && Named(t[i], q) && q.isMember && !Taken(t, q.team, CanonicalName(q.user, q.target))
    ensures CreateDm(Marked(t, i, true), q).0 == Marked(t, i, true) + [NewChannel(q)]
  {
    var u := Marked(t, i, true);
    assert forall k :: 0 <= k < |t| ==> t[k].team != q.team || t[k].name != CanonicalName(q.user, q.target);
    forall k | 0 <= k < |u| ensures !Matches(u[k], q) {
      assert k != i ==> u[k] == t[k];
    }
  }

  /** Otherwise delete the legacy channel, open the canonical one, and restore the legacy one. */
  lemma {:induction false} RestoreLegacy(t: Table, i: nat, q: Request) returns (es: seq<Event>)
    requires UniqueNames(t) && i < |t| && Named(t[i], q) && q.isMember && !Taken(t, q.team, CanonicalName(q.user, q.target))
    ensures NoAdminDirect(es) && !OneLive(Run(t, es))
  {
    es := [Delete(i), OpenDm(q), Restore(i)];
    ThreeSteps(t, es);
    OpensCanonical(t, i, q);
    TwoMatch(Marked(Marked(t, i, true) + [NewChannel(q)], i, false), q, i, |t|);
  }

  lemma {:induction false} TwoLive(t: Table, i: nat) returns (es: seq<Event>)
    requires AllWellNamed(t) && UniqueNames(t) && i < |t| && Legacy(t[i]) && !Blocked(t, t[i])
    ensures NoAdminDirect(es) && !OneLive(Run(t, es))
  {
    var (x, y) := ParseDirectName(t[i].name).value;
    var q := Request(t[i].team, x, y, true);
    TwoNames(t[i]);
    var holder := Holder(t, q.team, CanonicalName(x, y), 0);
    if holder.Some? {
      es := RestoreBoth(t, i, holder.value, q);
    } else {
      es := RestoreLegacy(t, i, q);
    }
  }

  lemma {:induction false} ThreeSteps(t: Table, es: seq<Event>)
    requires 2 <= |es| <= 3
    ensures Run(t, es) == var u := Step(Step(t, es[0]), es[1]); if |es| == 2 then u else Step(u, es[2])
  {
    var u := Step(t, es[0]);
    var v := Step(u, es[1]);
    assert Run(t, es) == Run(u, es[1..]) && es[1..][0] == es[1];
    assert Run(u, es[1..]) == Run(v, es[1..][1..]);
    if |es| == 3 {
      assert es[1..][1..][0] == es[2];
      assert Run(v, es[1..][1..]) == Run(Step(v, es[2]), es[1..][1..][1..]);
    }
  }

  /** With restores at any moment, every run without direct channels of administrators keeps at most one
      live channel for each team and pair exactly when every legacy row is blocked; in particular, when
      there are no legacy rows. */
  lemma {:induction false} OneLiveExactly(t: Table)
    requires AllWellNamed(t) && UniqueNames(t)
    ensures (forall es :: NoAdminDirect(es) ==> OneLive(Run(t, es))) <==> LegacyBlocked(t)
  {
    if LegacyBlocked(t) {
      forall es | NoAdminDirect(es) ensures OneLive(Run(t, es)) { BlockedRuns(t, es); }
    } else {
      var i :| 0 <= i < |t| && Legacy(t[i]) && !Blocked(t, t[i]);
      var es := TwoLive(t, i);
    }
  }

  /** With them it fails from the start: both names of one pair. */
  lemma {:induction false} AdminMakesTwo(q: Request) returns (es: seq<Event>)
    ensures !OneLive(Run([], es))
  {
    var canonical, legacy := CanonicalName(q.user, q.target), LegacyName(q.user, q.target);
    es := [AdminCreate(q.team, Direct, canonical), AdminCreate(q.team, Direct, legacy)];
    ThreeSteps([], es);
    NamesIdentifyPairs(q.user, q.target, q.user, q.target);
    var t := [Channel(q.team, Direct, canonical, false)];
    assert Inserted([], t[0]) == t;
    assert Inserted(t, Channel(q.team, Direct, legacy, false)) == t + [Channel(q.team, Direct, legacy, false)];
    TwoMatch(t + [Channel(q.team, Direct, legacy, false)], q, 0, 1);
  }

  // -------------------------------------------------------------------- after a delete

  /** With no live channel to return, a new one is made exactly for a team member whose pair's
      canonical name no row has ever used. */
  lemma CreatesExactly(t: Table, q: Request)
    requires Lookup(t, q, 0).None?
    ensures CreateDm(t, q).1.Ok? <==> q.isMember && !Taken(t, q.team, CanonicalName(q.user, q.target))
    ensures !q.isMember ==> CreateDm(t, q) == (t, Err(NotInTeam))
    ensures q.isMember && CreateDm(t, q).1.Err? ==> CreateDm(t, q) == (t, Err(NameTaken))
  {
  }

  ghost predicate Gone(t: Table, q: Request) {
    Lookup(t, q, 0).None? && Taken(t, q.team, CanonicalName(q.user, q.target))
  }

  lemma {:induction false} MatchesOnly(t: Table, q: Request, k: nat)
    requires OneLive(t) && k < |t| && Matches(t[k], q)
    ensures forall j :: 0 <= j < |t| && j != k ==> !Matches(t[j], q)
  {
    FindsOnly(t, q, k);
    forall j | 0 <= j < |t| && j != k ensures !Matches(t[j], q) {
      if Matches(t[j], q) {
        FindsOnly(t, q, j);
      }
    }
  }

  lemma {:induction false} DeletedIsGone(t: Table, q: Request, k: nat)
    requires k < |t| && t[k].team == q.team && t[k].name == CanonicalName(q.user, q.target)
    requires forall j :: 0 <= j < |t| && j != k ==> !Matches(t[j], q)
    ensures Gone(Marked(t, k, true), q)
  {
    var u := Marked(t, k, true);
    assert u[k].team == q.team && u[k].name == CanonicalName(q.user, q.target);
    assert forall j :: 0 <= j < |u| && j != k ==> u[j] == t[j];
  }

  lemma {:induction false} DeleteMakesGone(t: Table, q: Request, k: nat)
    requires OneLive(t) && k < |t| && Matches(t[k], q) && t[k].name == CanonicalName(q.user, q.target)
    ensures Gone(Step(t, Delete(k)), q)
  {
    MatchesOnly(t, q, k);
    DeletedIsGone(t, q, k);
  }

  /** The step restores a row of the pair, or inserts its legacy name. */
  predicate Revives(t: Table, q: Request, e: Event) {
    || (e.Restore? && e.row < |t| && Named(t[e.row], q))
    || (e.AdminCreate? && e.kind == Direct && e.team == q.team && e.name == LegacyName(q.user, q.target))
  }

  ghost predicate Unrevived(t: Table, q: Request, es: seq<Event>) {
    forall i :: 0 <= i < |es| ==> !Revives(t, q, es[i])
  }

  lemma {:induction false} GoneKept(t: Table, q: Request, e: Event)
    requires Gone(t, q) && !Revives(t, q, e)
    ensures Gone(Step(t, e), q)
    ensures forall k :: 0 <= k < |Step(t, e)| && Named(Step(t, e)[k], q) ==> k < |t| && Named(t[k], q)
  {
    var u, name := Step(t, e), CanonicalName(q.user, q.target);
    var i := Holder(t, q.team, name, 0).value;
    assert u[i].team == q.team && u[i].name == name;
    forall k | 0 <= k < |u| && Named(u[k], q) ensures k < |t| && Named(t[k], q) && !Matches(u[k], q) {
      if k < |t| {
        assert !Matches(t[k], q);
      }
    }
  }

  lemma {:induction false} GoneRun(t: Table, q: Request, es: seq<Event>)
    requires Gone(t, q) && Unrevived(t, q, es)
    ensures Gone(Run(t, es), q)
    decreases |es|
  {
    if es != [] {
      assert !Revives(t, q, es[0]);
      GoneKept(t, q, es[0]);
      var u, rest := Step(t, es[0]), es[1..];
      forall i | 0 <= i < |rest| ensures !Revives(u, q, rest[i]) {
        assert rest[i] == es[i + 1] && !Revives(t, q, es[i + 1]);
      }
      GoneRun(u, q, rest);
    }
  }

  /** Whoever of the pair asks, the answer is the same. */
  lemma {:induction false} GoneForBoth(t: Table, q: Request, member: bool)
    requires Gone(t, q)
    ensures Gone(t, Request(q.team, q.user, q.target, member)) && Gone(t, Request(q.team, q.target, q.user, member))
  {
    SortCommutes(q.user, q.target);
    var other := Request(q.team, q.target, q.user, member);
    assert forall k :: 0 <= k < |t| ==> Matches(t[k], other) == Matches(t[k], q);
    assert forall k :: 0 <= k < |t| ==> Matches(t[k], q.(isMember := member)) == Matches(t[k], q);
  }

  /** Deleting a channel with the canonical name ends the pair's direct channel until some row of the
      pair is restored or inserted by an administrator: up to then every request of either side fails,
      in every run. */
  lemma {:induction false} FailsUntilRestored(t: Table, q: Request, es: seq<Event>, member: bool)
    requires Gone(t, q) && Unrevived(t, q, es)
    ensures CreateDm(Run(t, es), Request(q.team, q.user, q.target, member)).1.Err?
    ensures CreateDm(Run(t, es), Request(q.team, q.target, q.user, member)).1.Err?
  {
    GoneRun(t, q, es);
    GoneForBoth(Run(t, es), q, member);
  }

  /** Restoring a row of the pair makes it the pair's channel again. */
  lemma {:induction false} RestoreReopens(t: Table, q: Request, row: nat)
    requires Gone(t, q) && row < |t| && Named(t[row], q)
    ensures var u := Step(t, Restore(row)); CreateDm(u, q) == (u, Ok(row))
  {
    var u := Step(t, Restore(row));
    assert Matches(u[row], q);
    assert forall k :: 0 <= k < |u| && k != row ==> u[k] == t[k];
  }

  /** Meanwhile the second interface succeeds, with a row that is deleted or not direct. */
  lemma {:induction false} V4OpensGone(t: Table, q: Request)
    requires Gone(t, q)
    ensures var (u, k) := CreateDmV4(t, q); u == t && k < |t| && !Matches(t[k], q)
  {
  }
}
