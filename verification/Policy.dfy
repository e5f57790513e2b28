/** The authorization policy engine of `backend/src/auth/policy.rs`. */
module Policy {
  import opened Wrappers
  import opened Strings

  datatype Resource = User | Team | Channel | Post | File | System | Admin

  datatype Action = Create | Read | Update | Delete | List | Manage

  datatype Permission = Permission(resource: Resource, action: Action)

  const ADMIN_FULL := Permission(Admin, Manage)
  const SYSTEM_MANAGE := Permission(System, Manage)

  type Role = set<Permission>

  const SYSTEM_ADMIN: Role := {
    ADMIN_FULL, Permission(User, Manage), Permission(Team, Manage), Permission(Channel, Manage),
    SYSTEM_MANAGE, Permission(Post, Delete)}

  const TEAM_ADMIN: Role := {
    Permission(Team, Create), Permission(Team, Manage), Permission(Channel, Manage), Permission(User, Read),
    Permission(Post, Delete)}

  const ORG_ADMIN: Role := {
    Permission(Team, Create), Permission(Team, Manage), Permission(Channel, Manage), Permission(User, Manage),
    Permission(Post, Delete)}

  const MEMBER: Role := {
    Permission(User, Read), Permission(User, Update), Permission(Team, Read), Permission(Channel, Read),
    Permission(Channel, Create), Permission(Post, Create), Permission(Post, Read), Permission(Post, Update),
    Permission(File, Create), Permission(File, Read), Permission(System, Read)}

  const GUEST: Role := {
    Permission(User, Read), Permission(Team, Read), Permission(Channel, Read), Permission(Post, Read),
    Permission(File, Read)}

  function FromName(name: string): Option<Role> {
    match name
    case "system_admin" => Some(SYSTEM_ADMIN)
    case "team_admin" => Some(TEAM_ADMIN)
    case "org_admin" => Some(ORG_ADMIN)
    case "admin" => Some(ORG_ADMIN)
    case "member" => Some(MEMBER)
    case "guest" => Some(GUEST)
    case _ => None
  }

  datatype Decision = Allow | Deny(reason: string)

  // -------------------------------------------------------------------- role strings

  predicate IsDelimiter(c: char) { IsWhitespace(c) || c == ',' }

  /** `str::split` on delimiters: always one piece more than there are delimiters. */
  function Pieces(s: string): (ps: seq<string>)
    ensures |ps| > 0
  {
    if s == [] then [""] else Grow(Pieces(s[..|s| - 1]), s[|s| - 1])
  }

  /** One more character begins a new piece or extends the last one. */
  function Grow(ps: seq<string>, c: char): (r: seq<string>)
    requires |ps| > 0
    ensures |r| > 0
  {
    if IsDelimiter(c) then ps + [""] else ps[..|ps| - 1] + [ps[|ps| - 1] + [c]]
  }

  /** Each piece trimmed, without the empty ones. */
  function Tidy(ps: seq<string>): seq<string> {
    if ps == [] then [] else
      var p := Trim(ps[|ps| - 1]);
      Tidy(ps[..|ps| - 1]) + (if p == "" then [] else [p])
  }

  function ParseRoles(role: string): seq<string> {
    Tidy(Pieces(role))
  }

  function TokenSet(role: string): set<string> {
    set t | t in ParseRoles(role)
  }

  // ------------------------------------------------------------------------ decisions

  predicate Grants(name: string, p: Permission) {
    FromName(name).Some? && (ADMIN_FULL in FromName(name).value || p in FromName(name).value)
  }

  /** What a set of role names allows; order and repetition cannot matter. */
  function Decide(names: set<string>, p: Permission): Decision {
    if exists n :: n in names && Grants(n, p) then Allow
    else if exists n :: n in names && FromName(n).Some? then Deny("Permission denied")
    else Deny("Unknown role")
  }

  /** The loop of `check_permission`. */
  method CheckNames(names: seq<string>, p: Permission) returns (r: Decision)
    ensures r == Decide((set n | n in names), p)
  {
    var hasKnownRole := false;
    for i := 0 to |names|
      invariant hasKnownRole <==> exists k :: 0 <= k < i && FromName(names[k]).Some?
      invariant forall k :: 0 <= k < i ==> !Grants(names[k], p)
    {
      var def := FromName(names[i]);
      if def.None? {
        continue;
      }
      hasKnownRole := true;
      if ADMIN_FULL in def.value || p in def.value {
        assert names[i] in names && Grants(names[i], p);
        return Allow;
      }
    }
    if hasKnownRole {
      var k :| 0 <= k < |names| && FromName(names[k]).Some?;
      assert names[k] in names;
      return Deny("Permission denied");
    }
    return Deny("Unknown role");
  }

  /** A permission is allowed exactly if some word of the role string grants it, and the role is unknown
      exactly if no word is a known one. */
  method CheckPermission(role: string, p: Permission) returns (r: Decision)
    ensures r == Decide(TokenSet(role), p)
    ensures r == Allow <==> exists n :: StandsAlone(role, n) && Grants(n, p)
    ensures r == Deny("Unknown role") <==> forall n :: StandsAlone(role, n) ==> FromName(n).None?
    ensures p == SYSTEM_MANAGE ==> (r == Allow <==> StandsAlone(role, "system_admin"))
  {
    r := CheckNames(ParseRoles(role), p);
    DecidesByWords(role, p);
    OnlySystemAdminManages(role, p);
  }

  // ------------------------------------------------------------------------- theorems

  lemma {:induction false} GrowRight(ps: seq<string>, qs: seq<string>, c: char)
    requires |qs| > 0
    ensures Grow(ps + qs, c) == ps + Grow(qs, c)
  {
  }

  lemma {:induction false} PiecesSnoc(s: string, c: char)
    ensures Pieces(s + [c]) == Grow(Pieces(s), c)
  {
  }

  lemma {:induction false} PiecesJoin(r: string, d: char, s: string)
    requires IsDelimiter(d)
    ensures Pieces(r + [d] + s) == Pieces(r) + Pieces(s)
  {
    if s == [] {
      assert r + [d] + s == r + [d];
      PiecesSnoc(r, d);
    } else {
      var before, c := s[..|s| - 1], s[|s| - 1];
      PiecesJoin(r, d, before);
      assert r + [d] + s == (r + [d] + before) + [c] && s == before + [c];
      PiecesSnoc(r + [d] + before, c);
      PiecesSnoc(before, c);
      GrowRight(Pieces(r), Pieces(before), c);
    }
  }

  lemma {:induction false} TidyJoin(ps: seq<string>, qs: seq<string>)
    ensures Tidy(ps + qs) == Tidy(ps) + Tidy(qs)
  {
    if qs == [] {
      assert ps + qs == ps;
    } else {
      assert (ps + qs)[..|ps + qs| - 1] == ps + qs[..|qs| - 1];
      TidyJoin(ps, qs[..|qs| - 1]);
    }
  }

  lemma {:induction false} JoinTokens(r: string, d: char, s: string)
    requires IsDelimiter(d)
    ensures ParseRoles(r + [d] + s) == ParseRoles(r) + ParseRoles(s)
    ensures TokenSet(r + [d] + s) == TokenSet(r) + TokenSet(s)
  {
    PiecesJoin(r, d, s);
    TidyJoin(Pieces(r), Pieces(s));
  }

  // --------------------------------------------------------------- words of a role string

  lemma DelimitersAre(c: char)
    ensures IsDelimiter(c) <==> c == ',' || IsWhitespace(c)
    ensures IsDelimiter(' ') && IsDelimiter(',') && IsDelimiter('\t') && IsDelimiter('\n')
    ensures '!' <= c <= '~' && c != ',' ==> !IsDelimiter(c)
  {
  }

  predicate NoDelimiters(s: string) {
    forall i :: 0 <= i < |s| ==> !IsDelimiter(s[i])
  }

  /** The word stands from `i` to `j`, between delimiters or ends. */
  predicate StandsAt(role: string, n: string, i: nat, j: nat) {
    && i <= j <= |role| && role[i..j] == n
    && (i == 0 || IsDelimiter(role[i - 1]))
    && (j == |role| || IsDelimiter(role[j]))
  }

  /** `n` is a non-empty word without delimiters that stands somewhere in the string. */
  ghost predicate StandsAlone(role: string, n: string) {
    n != "" && NoDelimiters(n) && exists i: nat, j: nat :: StandsAt(role, n, i, j)
  }

  lemma {:induction false} PiecesPlain(s: string)
    requires NoDelimiters(s)
    ensures Pieces(s) == [s]
  {
    if s != [] {
      PiecesPlain(s[..|s| - 1]);
      assert s[..|s| - 1] + [s[|s| - 1]] == s;
    }
  }

  /** A string without delimiters is its own single token, unless it is empty. */
  lemma {:induction false} PlainToken(s: string)
    requires NoDelimiters(s)
    ensures ParseRoles(s) == if s == "" then [] else [s]
  {
    PiecesPlain(s);
    TrimIs([], s, []);
    assert [] + s + [] == s;
    assert Tidy([s]) == Tidy([]) + (if Trim(s) == "" then [] else [Trim(s)]);
  }

  /** In a string without delimiters only the whole stands alone. */
  lemma {:induction false} PlainWord(s: string, n: string)
    requires NoDelimiters(s)
    ensures StandsAlone(s, n) <==> n == s && s != ""
  {
    if n == s && s != "" {
      assert StandsAt(s, n, 0, |s|);
    }
    if StandsAlone(s, n) {
      var i: nat, j: nat :| StandsAt(s, n, i, j);
      assert i == 0 && j == |s|;
    }
  }

  lemma {:induction false} LetterOfWord(t: string, n: string, i: nat, j: nat, k: nat)
    requires StandsAt(t, n, i, j) && i <= k < j
    ensures |n| == j - i && n[k - i] == t[k]
  {
  }

  /** No word reaches across a delimiter. */
  lemma {:induction false} NotAcross(t: string, n: string, i: nat, j: nat, k: nat)
    requires StandsAt(t, n, i, j) && NoDelimiters(n) && k < |t| && IsDelimiter(t[k])
    ensures j <= k || k < i
  {
    if i <= k < j {
      LetterOfWord(t, n, i, j, k);
    }
  }

  lemma {:induction false} WordOfPart(r: string, d: char, s: string, n: string)
    requires IsDelimiter(d) && StandsAlone(r + [d] + s, n)
    ensures StandsAlone(r, n) || StandsAlone(s, n)
  {
    var t := r + [d] + s;
    var i: nat, j: nat :| StandsAt(t, n, i, j);
    NotAcross(t, n, i, j, |r|);
    if j <= |r| {
      assert r[i..j] == t[i..j];
      assert StandsAt(r, n, i, j);
    } else {
      var k := |r| + 1;
      assert s[i - k..j - k] == t[i..j];
      assert i > k ==> s[i - k - 1] == t[i - 1];
      assert j < |t| ==> s[j - k] == t[j];
      assert StandsAt(s, n, i - k, j - k);
    }
  }

  lemma {:induction false} WordOfWhole(r: string, d: char, s: string, n: string)
    requires IsDelimiter(d) && (StandsAlone(r, n) || StandsAlone(s, n))
    ensures StandsAlone(r + [d] + s, n)
  {
    var t := r + [d] + s;
    if StandsAlone(r, n) {
      var i: nat, j: nat :| StandsAt(r, n, i, j);
      assert StandsAt(t, n, i, j);
    } else {
      var i: nat, j: nat :| StandsAt(s, n, i, j);
      assert t[i + |r| + 1..j + |r| + 1] == n;
      assert StandsAt(t, n, i + |r| + 1, j + |r| + 1);
    }
  }

  /** The tokens are exactly the words that stand alone. */
  lemma {:induction false} TokensExactly(role: string, n: string)
    ensures n in TokenSet(role) <==> StandsAlone(role, n)
    decreases |role|
  {
    if NoDelimiters(role) {
      PlainToken(role);
      PlainWord(role, n);
    } else {
      var k :| 0 <= k < |role| && IsDelimiter(role[k]);
      var left, right := role[..k], role[k + 1..];
      assert role == left + [role[k]] + right;
      JoinTokens(left, role[k], right);
      if StandsAlone(role, n) { WordOfPart(left, role[k], right, n); }
      if StandsAlone(left, n) || StandsAlone(right, n) { WordOfWhole(left, role[k], right, n); }
      TokensExactly(left, n);
      TokensExactly(right, n);
    }
  }

  lemma {:induction false} DecidesByWords(role: string, p: Permission)
    ensures Decide(TokenSet(role), p) == Allow <==> exists n :: StandsAlone(role, n) && Grants(n, p)
    ensures Decide(TokenSet(role), p) == Deny("Unknown role") <==> forall n :: StandsAlone(role, n) ==> FromName(n).None?
    ensures "system_admin" in TokenSet(role) <==> StandsAlone(role, "system_admin")
  {
    forall n ensures n in TokenSet(role) <==> StandsAlone(role, n) { TokensExactly(role, n); }
    assert "Unknown role" != "Permission denied";
  }

  /** Joining two role strings by any delimiter allows exactly what either allows, and is unknown
      exactly when both are. */
  lemma {:induction false} JoinDecides(r: string, d: char, s: string, p: Permission)
    requires IsDelimiter(d)
    ensures var both, left, right := Decide(TokenSet(r + [d] + s), p), Decide(TokenSet(r), p), Decide(TokenSet(s), p);
            && (both == Allow <==> left == Allow || right == Allow)
            && (both == Deny("Unknown role") <==> left == Deny("Unknown role") && right == Deny("Unknown role"))
  {
    JoinTokens(r, d, s);
    var A, B := TokenSet(r), TokenSet(s);
    assert forall n :: n in A + B <==> n in A || n in B;
    assert "Unknown role" != "Permission denied";
  }

  /** The order of joined strings, their repetition and the delimiters never change a decision. */
  lemma {:induction false} JoinOrderIrrelevant(r: string, d: char, s: string, d': char, p: Permission)
    requires IsDelimiter(d) && IsDelimiter(d')
    ensures Decide(TokenSet(r + [d] + s), p) == Decide(TokenSet(s + [d'] + r), p)
    ensures Decide(TokenSet(r + [d] + r), p) == Decide(TokenSet(r), p)
  {
    JoinTokens(r, d, s);
    JoinTokens(s, d', r);
    JoinTokens(r, d, r);
    assert TokenSet(r) + TokenSet(s) == TokenSet(s) + TokenSet(r);
    assert TokenSet(r) + TokenSet(r) == TokenSet(r);
  }

  /** Managing the system takes exactly the system administrator role, in whatever company; that
      role allows everything. */
  lemma {:induction false} OnlySystemAdminManages(role: string, p: Permission)
    ensures Decide(TokenSet(role), SYSTEM_MANAGE) == Allow <==> "system_admin" in TokenSet(role)
    ensures "system_admin" in TokenSet(role) ==> Decide(TokenSet(role), p) == Allow
  {
    assert Grants("system_admin", SYSTEM_MANAGE) && Grants("system_admin", p);
    forall n | Grants(n, SYSTEM_MANAGE) ensures n == "system_admin" {
      NotManaging(n);
    }
  }

  /** What each role grants, permission by permission. */
  lemma {:induction false} RoleTables(p: Permission)
    ensures Grants("system_admin", p)
    ensures Grants("admin", p) <==> Grants("org_admin", p)
    ensures Grants("org_admin", p) <==>
      || (p.resource == Team && (p.action == Create || p.action == Manage))
      || ((p.resource == Channel || p.resource == User) && p.action == Manage)
      || (p.resource == Post && p.action == Delete)
    ensures Grants("team_admin", p) <==>
      || (p.resource == Team && (p.action == Create || p.action == Manage))
      || (p.resource == Channel && p.action == Manage)
      || (p.resource == User && p.action == Read)
      || (p.resource == Post && p.action == Delete)
    ensures Grants("member", p) <==>
      || (p.action == Read && p.resource != Admin)
      || (p.action == Update && (p.resource == User || p.resource == Post))
      || (p.action == Create && (p.resource == Channel || p.resource == Post || p.resource == File))
    ensures Grants("guest", p) <==> p.action == Read && p.resource != Admin && p.resource != System
  {
  }

  /** Every other name is unknown. */
  lemma {:induction false} KnownRoles(n: string)
    ensures FromName(n).Some? <==> n in {"system_admin", "team_admin", "org_admin", "admin", "member", "guest"}
  {
  }

  lemma {:induction false} NotManaging(n: string)
    ensures Grants(n, SYSTEM_MANAGE) ==> n == "system_admin"
  {
  }
}
