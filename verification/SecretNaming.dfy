/** Names of Key Vault secrets (shared/secret_naming.py), and the name check
    of shared/keyvault.py.

    `lower` stands for str.lower. All that is asked of it is that it leaves
    text of [a-z0-9-] alone. */
module SecretNaming {
  import opened Wrappers
  import opened Strings

  type Lower = string -> string

  datatype Error = InvalidSecretComponent | SecretNameTooLong

  const MAX_SECRET_NAME_LENGTH := 127

  predicate IsAlnum(c: char) {
    'a' <= c <= 'z' || '0' <= c <= '9'
  }

  predicate IsPlain(s: string) {
    forall c :: c in s ==> IsAlnum(c) || c == '-'
  }

  ghost predicate KeepsPlain(lower: Lower) {
    forall s :: IsPlain(s) ==> lower(s) == s
  }

  // ------------------------------------------------------------ sanitising

  /** re.sub("[^a-z0-9-]", "-", s) */
  function Replace(s: string): (t: string)
    ensures IsPlain(t) && |t| == |s|
  {
    seq(|s|, i requires 0 <= i < |s| => if IsAlnum(s[i]) then s[i] else '-')
  }

  /** re.sub("-+", "-", s) */
  function Collapse(s: string): string {
    if s == "" then ""
    else if |s| > 1 && s[0] == '-' && s[1] == '-' then Collapse(s[1..])
    else [s[0]] + Collapse(s[1..])
  }

  function StripLeft(s: string): string {
    if s != "" && s[0] == '-' then StripLeft(s[1..]) else s
  }

  function StripRight(s: string): string {
    if s != "" && s[|s| - 1] == '-' then StripRight(s[..|s| - 1]) else s
  }

  /** sanitize_scope and sanitize_name_component, which are the same. */
  function Sanitize(lower: Lower, s: string): string {
    StripRight(StripLeft(Collapse(Replace(lower(s)))))
  }

  predicate NoDouble(s: string) {
    forall i :: 0 <= i < |s| - 1 ==> !(s[i] == '-' && s[i + 1] == '-')
  }

  /** Lowercase letters and digits, with single hyphens inside only. */
  ghost predicate IsSanitized(s: string) {
    && IsPlain(s) && NoDouble(s)
    && (s != "" ==> s[0] != '-' && s[|s| - 1] != '-')
  }

  // the words between hyphens, and that every step keeps them

  function NonEmpty(parts: seq<string>): seq<string> {
    if parts == [] then []
    else (if parts[0] == "" then [] else [parts[0]]) + NonEmpty(parts[1..])
  }

  /** The text split at every character that is not a letter or digit. */
  function Pieces(s: string): (parts: seq<string>)
    ensures parts != []
  {
    if s == "" then [""]
    else if !IsAlnum(s[0]) then [""] + Pieces(s[1..])
    else
      var rest := Pieces(s[1..]);
      [[s[0]] + rest[0]] + rest[1..]
  }

  /** The maximal runs of letters and digits. */
  function Words(s: string): seq<string> {
    NonEmpty(Pieces(s))
  }

  lemma {:induction false} PiecesOfPlain(s: string)
    requires IsPlain(s)
    ensures Pieces(s) == Split(s, '-')
  {
    if s != "" {
      assert s[0] in s;
      PiecesOfPlain(s[1..]);
    }
  }

  lemma {:induction false} ReplaceKeepsPieces(s: string)
    ensures Pieces(Replace(s)) == Pieces(s)
  {
    if s != "" {
      ReplaceKeepsPieces(s[1..]);
      assert Replace(s)[1..] == Replace(s[1..]);
    }
  }

  function HyphenWords(s: string): seq<string> {
    NonEmpty(Split(s, '-'))
  }

  lemma {:induction false} NonEmptyConcat(a: seq<string>, b: seq<string>)
    ensures NonEmpty(a + b) == NonEmpty(a) + NonEmpty(b)
  {
    if a == [] {
      assert a + b == b;
    } else {
      NonEmptyConcat(a[1..], b);
      assert (a + b)[1..] == a[1..] + b;
      var head := if a[0] == "" then [] else [a[0]];
      assert head + (NonEmpty(a[1..]) + NonEmpty(b)) == head + NonEmpty(a[1..]) + NonEmpty(b);
    }
  }

  lemma {:induction false} CollapseKeeps(s: string)
    ensures Split(Collapse(s), '-')[0] == Split(s, '-')[0]
    ensures NonEmpty(Split(Collapse(s), '-')[1..]) == NonEmpty(Split(s, '-')[1..])
    ensures IsPlain(s) ==> IsPlain(Collapse(s))
    ensures NoDouble(Collapse(s))
    ensures (Collapse(s) == "" <==> s == "") && (s != "" ==> Collapse(s)[0] == s[0])
  {
    if s != "" {
      CollapseKeeps(s[1..]);
      var c := Collapse(s[1..]);
      if |s| > 1 && s[0] == '-' && s[1] == '-' {
        assert Split(s, '-')[1..] == Split(s[1..], '-');
      } else {
        assert ([s[0]] + c)[1..] == c;
        assert c != "" ==> c[0] == s[1];
        if s[0] == '-' {
          assert Split(s, '-')[1..] == Split(s[1..], '-');
          assert Split([s[0]] + c, '-')[1..] == Split(c, '-');
        }
      }
    }
  }

  lemma {:induction false} StripLeftKeeps(s: string)
    ensures HyphenWords(StripLeft(s)) == HyphenWords(s)
    ensures NoDouble(s) ==> NoDouble(StripLeft(s))
    ensures IsPlain(s) ==> IsPlain(StripLeft(s))
    ensures StripLeft(s) != "" ==> StripLeft(s)[0] != '-'
  {
    if s != "" && s[0] == '-' {
      StripLeftKeeps(s[1..]);
      assert ([""] + Split(s[1..], '-'))[1..] == Split(s[1..], '-');
    }
  }

  lemma {:induction false} StripRightKeeps(s: string)
    ensures HyphenWords(StripRight(s)) == HyphenWords(s)
    ensures NoDouble(s) ==> NoDouble(StripRight(s))
    ensures IsPlain(s) ==> IsPlain(StripRight(s))
    ensures StripRight(s) <= s
    ensures StripRight(s) != "" ==> StripRight(s)[|StripRight(s)| - 1] != '-'
  {
    if s != "" && s[|s| - 1] == '-' {
      var front := s[..|s| - 1];
      StripRightKeeps(front);
      SplitConcat(front, "", '-');
      assert s == front + ['-'] + "";
      NonEmptyConcat(Split(front, '-'), [""]);
      assert NonEmpty([""]) == [];
    }
  }

  /** Between single interior hyphens no part is empty. */
  lemma {:induction false} SanitizedParts(s: string)
    requires NoDouble(s) && s != "" && s[|s| - 1] != '-'
    ensures NonEmpty(Split(s, '-')[1..]) == Split(s, '-')[1..]
    ensures Split(s, '-')[0] == "" <==> s[0] == '-'
  {
    if |s| > 1 {
      SanitizedParts(s[1..]);
      var rest := Split(s[1..], '-');
      if s[0] == '-' {
        assert Split(s, '-')[1..] == rest && rest == [rest[0]] + rest[1..];
      }
    }
  }

  /** What sanitising yields: the maximal runs of letters and digits of the
      lowercased text, joined by single hyphens. And the form that has. */
  lemma SanitizeIsJoinedWords(lower: Lower, s: string)
    ensures Sanitize(lower, s) == Join(Words(lower(s)), '-')
    ensures IsSanitized(Sanitize(lower, s))
  {
    var r := Replace(lower(s));
    var c := Collapse(r);
    var l := StripLeft(c);
    var out := StripRight(l);
    ReplaceKeepsPieces(lower(s));
    PiecesOfPlain(r);
    CollapseKeeps(r);
    assert HyphenWords(c) == HyphenWords(r);
    StripLeftKeeps(c);
    StripRightKeeps(l);
    if out != "" {
      assert out[0] == l[0];
      SanitizedParts(out);
      assert HyphenWords(out) == Split(out, '-');
      JoinOfSplit(out, '-');
    } else {
      assert Split(out, '-') == [""] && NonEmpty([""]) == [];
    }
  }

  lemma {:induction false} CollapseFixes(s: string)
    requires NoDouble(s)
    ensures Collapse(s) == s
  {
    if s != "" {
      assert |s| > 1 ==> !(s[0] == '-' && s[0 + 1] == '-');
      CollapseFixes(s[1..]);
    }
  }

  /** The sanitised texts are exactly those that sanitising leaves alone. */
  lemma SanitizeFixesIff(lower: Lower, s: string)
    requires KeepsPlain(lower)
    ensures Sanitize(lower, s) == s <==> IsSanitized(s)
  {
    if IsSanitized(s) {
      assert Replace(s) == s;
      CollapseFixes(s);
    }
    SanitizeIsJoinedWords(lower, s);
  }

  lemma SanitizeIsIdempotent(lower: Lower, s: string)
    requires KeepsPlain(lower)
    ensures Sanitize(lower, Sanitize(lower, s)) == Sanitize(lower, s)
  {
    SanitizeIsJoinedWords(lower, s);
    SanitizeFixesIff(lower, Sanitize(lower, s));
  }

  // ------------------------------------------------------ generating names

  predicate IsHex(c: char) {
    'a' <= c <= 'f' || '0' <= c <= '9'
  }

  const UUID_HYPHENS: set<int> := {8, 13, 18, 23}

  /** Section 4 of RFC 9562, lowercase, as str(uuid4()) prints it. */
  predicate IsUuid(u: string) {
    |u| == 36 && forall i :: 0 <= i < 36 ==> if i in UUID_HYPHENS then u[i] == '-' else IsHex(u[i])
  }

  function PlainName(prefix: string, scope: string, component: string, uuid: string): string {
    prefix + "-" + scope + "-" + component + "-" + uuid
  }

  function OauthName(scope: string, connection: string, secretType: string, uuid: string): string {
    "bifrost" + "-" + scope + "-" + "oauth" + "-" + connection + "-" + secretType + "-" + uuid
  }

  function GenerateSecretName(lower: Lower, scope: string, component: string, prefix: string, uuid: string)
    : Result<string, Error>
  {
    var cleanScope := Sanitize(lower, scope);
    var cleanComponent := Sanitize(lower, component);
    if cleanScope == "" || cleanComponent == "" then Err(InvalidSecretComponent)
    else
      var name := PlainName(lower(prefix), cleanScope, cleanComponent, uuid);
      if |name| > MAX_SECRET_NAME_LENGTH then Err(SecretNameTooLong) else Ok(name)
  }

  function GenerateOauthSecretName(lower: Lower, scope: string, connection: string, secretType: string, uuid: string)
    : Result<string, Error>
  {
    var cleanScope := Sanitize(lower, scope);
    var cleanConnection := Sanitize(lower, connection);
    var cleanType := Sanitize(lower, secretType);
    if cleanScope == "" || cleanConnection == "" || cleanType == "" then Err(InvalidSecretComponent)
    else
      var name := OauthName(cleanScope, cleanConnection, cleanType, uuid);
      if |name| > MAX_SECRET_NAME_LENGTH then Err(SecretNameTooLong) else Ok(name)
  }

  /** KeyVaultClient._is_valid_secret_name, on ASCII. */
  predicate IsValidSecretName(name: string) {
    1 <= |name| <= 127 && forall c :: c in name ==> IsAlnum(c) || 'A' <= c <= 'Z' || c == '-'
  }

  lemma SanitizedJoin(a: string, b: string)
    requires IsSanitized(a) && IsSanitized(b) && a != "" && b != ""
    ensures IsSanitized(a + "-" + b) && a + "-" + b != ""
  {
    var s := a + "-" + b;
    forall i | 0 <= i < |s| - 1 ensures !(s[i] == '-' && s[i + 1] == '-') {
      if i < |a| - 1 {
        assert s[i] == a[i] && s[i + 1] == a[i + 1];
      } else if i > |a| {
        assert s[i] == b[i - |a| - 1] && s[i + 1] == b[i - |a| - 1 + 1];
      }
    }
  }

  lemma UuidIsSanitized(u: string)
    requires IsUuid(u)
    ensures IsSanitized(u)
  {
    forall c | c in u ensures IsAlnum(c) || c == '-' {
      var i :| 0 <= i < 36 && u[i] == c;
    }
  }

  lemma PlainNameShape(s: string, c: string, uuid: string)
    requires IsSanitized(s) && IsSanitized(c) && s != "" && c != "" && IsUuid(uuid)
    ensures IsSanitized(PlainName("bifrost", s, c, uuid))
    ensures |PlainName("bifrost", s, c, uuid)| == 46 + |s| + |c|
    ensures PlainName("bifrost", s, c, uuid) == "bifrost-" + s + "-" + c + "-" + uuid
  {
    UuidIsSanitized(uuid);
    SanitizedJoin("bifrost", s);
    SanitizedJoin("bifrost" + "-" + s, c);
    SanitizedJoin("bifrost" + "-" + s + "-" + c, uuid);
  }

  lemma OauthNameShape(s: string, c: string, t: string, uuid: string)
    requires IsSanitized(s) && IsSanitized(c) && IsSanitized(t) && s != "" && c != "" && t != "" && IsUuid(uuid)
    ensures IsSanitized(OauthName(s, c, t, uuid))
    ensures |OauthName(s, c, t, uuid)| == 53 + |s| + |c| + |t|
    ensures OauthName(s, c, t, uuid) == "bifrost-" + s + "-oauth-" + c + "-" + t + "-" + uuid
  {
    UuidIsSanitized(uuid);
    var a := "bifrost" + "-" + s;
    SanitizedJoin("bifrost", s);
    SanitizedJoin(a, "oauth");
    SanitizedJoin(a + "-" + "oauth", c);
    SanitizedJoin(a + "-" + "oauth" + "-" + c, t);
    SanitizedJoin(a + "-" + "oauth" + "-" + c + "-" + t, uuid);
  }

  /** When a plain name is generated, and what it looks like. */
  lemma PlainNameIff(lower: Lower, scope: string, component: string, uuid: string)
    requires KeepsPlain(lower) && IsUuid(uuid)
    ensures var s, c := Sanitize(lower, scope), Sanitize(lower, component);
      var r := GenerateSecretName(lower, scope, component, "bifrost", uuid);
      && (r.Ok? <==> s != "" && c != "" && |s| + |c| <= 81)
      && (r == Err(SecretNameTooLong) <==> s != "" && c != "" && |s| + |c| > 81)
      && (r.Ok? ==>
           && r.value == "bifrost-" + s + "-" + c + "-" + uuid
           && |r.value| <= 127 && IsSanitized(r.value) && IsValidSecretName(r.value))
  {
    var s, c := Sanitize(lower, scope), Sanitize(lower, component);
    SanitizeIsJoinedWords(lower, scope);
    SanitizeIsJoinedWords(lower, component);
    assert lower("bifrost") == "bifrost";
    if s != "" && c != "" {
      PlainNameShape(s, c, uuid);
    }
  }

  /** The same for any prefix, which is lowercased but not sanitised. */
  lemma PrefixedNameIff(lower: Lower, scope: string, component: string, prefix: string, uuid: string)
    requires IsUuid(uuid)
    ensures var s, c := Sanitize(lower, scope), Sanitize(lower, component);
      var r := GenerateSecretName(lower, scope, component, prefix, uuid);
      && (r.Ok? <==> s != "" && c != "" && |lower(prefix)| + |s| + |c| <= 88)
      && (r == Err(InvalidSecretComponent) <==> s == "" || c == "")
      && (r.Ok? ==> r.value == lower(prefix) + "-" + s + "-" + c + "-" + uuid)
  {
  }

  lemma OauthNameIff(lower: Lower, scope: string, connection: string, secretType: string, uuid: string)
    requires IsUuid(uuid)
    ensures var s, c, t := Sanitize(lower, scope), Sanitize(lower, connection), Sanitize(lower, secretType);
      var r := GenerateOauthSecretName(lower, scope, connection, secretType, uuid);
      && (r.Ok? <==> s != "" && c != "" && t != "" && |s| + |c| + |t| <= 74)
      && (r == Err(SecretNameTooLong) <==> s != "" && c != "" && t != "" && |s| + |c| + |t| > 74)
      && (r.Ok? ==>
           && r.value == "bifrost-" + s + "-oauth-" + c + "-" + t + "-" + uuid
           && |r.value| <= 127 && IsSanitized(r.value) && IsValidSecretName(r.value))
  {
    var s, c, t := Sanitize(lower, scope), Sanitize(lower, connection), Sanitize(lower, secretType);
    SanitizeIsJoinedWords(lower, scope);
    SanitizeIsJoinedWords(lower, connection);
    SanitizeIsJoinedWords(lower, secretType);
    if s != "" && c != "" && t != "" {
      OauthNameShape(s, c, t, uuid);
    }
  }

  // --------------------------------------------------- recognising names

  /** A Python pattern ending in $ also lets one newline follow. */
  function Chomp(s: string): string {
    if s != "" && s[|s| - 1] == '\n' then s[..|s| - 1] else s
  }

  predicate MatchesValidName(s: string) {
    Chomp(s) != "" && forall c :: c in Chomp(s) ==> IsAlnum(c) || 'A' <= c <= 'Z' || c == '_' || c == '-'
  }

  /** value.split("--") */
  function SplitDouble(s: string): (parts: seq<string>)
    ensures parts != []
  {
    if |s| < 2 then [s]
    else if s[0] == '-' && s[1] == '-' then [""] + SplitDouble(s[2..])
    else
      var rest := SplitDouble(s[1..]);
      [[s[0]] + rest[0]] + rest[1..]
  }

  predicate IsSecretReference(value: string) {
    var parts := Split(value, '-');
    if "bifrost-" <= value && |parts| >= 9 then IsUuid(Chomp(Join(parts[|parts| - 5..], '-')))
    else IsLegacyReference(value)
  }

  predicate IsLegacyReference(value: string) {
    && !NoDouble(value)
    && var halves := SplitDouble(value);
      |halves| == 2 && MatchesValidName(halves[0]) && MatchesValidName(halves[1])
  }

  lemma {:induction false} HyphenFreeIsOnePart(s: string)
    ensures |Split(s, '-')| >= 1
    ensures |Split(s, '-')| == 1 <==> '-' !in s
    ensures '-' !in s ==> Split(s, '-') == [s]
  {
    if s != "" {
      HyphenFreeIsOnePart(s[1..]);
      assert s == [s[0]] + s[1..];
    }
  }

  lemma PartCount(a: string, b: string)
    ensures |Split(a + "-" + b, '-')| == |Split(a, '-')| + |Split(b, '-')|
  {
    SplitConcat(a, b, '-');
  }

  lemma PeelLast(u: string, end: nat, k: nat)
    requires k < end <= |u| && u[k] == '-' && '-' !in u[k + 1..end]
    ensures |Split(u[..end], '-')| == |Split(u[..k], '-')| + 1
  {
    assert u[..end] == u[..k] + "-" + u[k + 1..end];
    PartCount(u[..k], u[k + 1..end]);
    HyphenFreeIsOnePart(u[k + 1..end]);
  }

  lemma UuidHasFiveParts(u: string)
    requires IsUuid(u)
    ensures |Split(u, '-')| == 5
  {
    assert u[..36] == u;
    PeelLast(u, 36, 23);
    PeelLast(u, 23, 18);
    PeelLast(u, 18, 13);
    PeelLast(u, 13, 8);
    HyphenFreeIsOnePart(u[..8]);
  }

  /** For a sanitised text that begins with bifrost- and ends in a UUID, the
      number of parts before the UUID decides. */
  lemma EndsInUuid(front: string, uuid: string)
    requires IsUuid(uuid) && IsSanitized(front + "-" + uuid) && "bifrost-" <= front + "-" + uuid
    ensures IsSecretReference(front + "-" + uuid) <==> |Split(front, '-')| >= 4
  {
    var name := front + "-" + uuid;
    SplitConcat(front, uuid, '-');
    UuidHasFiveParts(uuid);
    var parts := Split(name, '-');
    assert parts[|parts| - 5..] == Split(uuid, '-');
    JoinOfSplit(uuid, '-');
    assert uuid[35] != '\n';
  }

  lemma ChompedUuidIff(tail: string)
    ensures IsUuid(Chomp(tail)) <==>
      IsUuid(tail) || (tail != "" && tail[|tail| - 1] == '\n' && IsUuid(tail[..|tail| - 1]))
  {
    if IsUuid(tail) {
      assert IsHex(tail[35]);
    }
  }

  /** A text with at least nine parts that begins with bifrost- is recognised
      exactly when a UUID stands at its end, or before a newline there. */
  lemma LongNameIsReferenceIff(front: string, tail: string)
    requires "bifrost-" <= front + "-" + tail && |Split(tail, '-')| == 5 && |Split(front, '-')| >= 4
    ensures IsSecretReference(front + "-" + tail) <==>
      IsUuid(tail) || (tail != "" && tail[|tail| - 1] == '\n' && IsUuid(tail[..|tail| - 1]))
  {
    LongName(front + "-" + tail, tail, front);
    ChompedUuidIff(tail);
  }

  lemma LongName(value: string, tail: string, front: string)
    requires value == front + "-" + tail && "bifrost-" <= value && |Split(tail, '-')| == 5 && |Split(front, '-')| >= 4
    ensures IsSecretReference(value) == IsUuid(Chomp(tail))
  {
    LastFiveParts(front, tail);
  }

  lemma LastFiveParts(front: string, tail: string)
    requires |Split(tail, '-')| == 5
    ensures var parts := Split(front + "-" + tail, '-');
      |parts| == |Split(front, '-')| + 5 && Join(parts[|parts| - 5..], '-') == tail
  {
    SplitConcat(front, tail, '-');
    var parts := Split(front + "-" + tail, '-');
    assert parts[|parts| - 5..] == Split(tail, '-');
    JoinOfSplit(tail, '-');
  }

  /** A generated plain name is taken for a secret reference exactly when its
      scope or its component keeps a hyphen: the test wants nine parts. */
  lemma PlainNameIsReferenceIff(lower: Lower, scope: string, component: string, uuid: string)
    requires KeepsPlain(lower) && IsUuid(uuid)
    requires GenerateSecretName(lower, scope, component, "bifrost", uuid).Ok?
    ensures IsSecretReference(GenerateSecretName(lower, scope, component, "bifrost", uuid).value) <==>
      '-' in Sanitize(lower, scope) || '-' in Sanitize(lower, component)
  {
    var s, c := Sanitize(lower, scope), Sanitize(lower, component);
    PlainNameIff(lower, scope, component, uuid);
    SanitizeIsJoinedWords(lower, scope);
    SanitizeIsJoinedWords(lower, component);
    PlainNameShape(s, c, uuid);
    var front := "bifrost" + "-" + s + "-" + c;
    PartCount("bifrost" + "-" + s, c);
    PartCount("bifrost", s);
    HyphenFreeIsOnePart("bifrost");
    HyphenFreeIsOnePart(s);
    HyphenFreeIsOnePart(c);
    BeginsWithBifrost(s, "-" + c + "-" + uuid);
    EndsInUuid(front, uuid);
  }

  lemma BeginsWithBifrost(s: string, rest: string)
    ensures "bifrost-" <= "bifrost" + "-" + s + rest
  {
  }

  /** A generated OAuth name always is. */
  lemma OauthNameIsReference(lower: Lower, scope: string, connection: string, secretType: string, uuid: string)
    requires IsUuid(uuid)
    requires GenerateOauthSecretName(lower, scope, connection, secretType, uuid).Ok?
    ensures IsSecretReference(GenerateOauthSecretName(lower, scope, connection, secretType, uuid).value)
  {
    var s, c, t := Sanitize(lower, scope), Sanitize(lower, connection), Sanitize(lower, secretType);
    OauthNameIff(lower, scope, connection, secretType, uuid);
    var a := "bifrost" + "-" + s;
    var front := a + "-" + "oauth" + "-" + c + "-" + t;
    PartCount(a + "-" + "oauth" + "-" + c, t);
    PartCount(a + "-" + "oauth", c);
    PartCount(a, "oauth");
    PartCount("bifrost", s);
    BeginsWithBifrost(s, "-" + "oauth" + "-" + c + "-" + t + "-" + uuid);
    assert "bifrost-" <= front + "-" + uuid;
    EndsInUuid(front, uuid);
  }

  lemma {:induction false} SplitDoubleAfter(p: string, s: string)
    requires NoDouble(p) && (p != "" ==> p[|p| - 1] != '-')
    ensures SplitDouble(p + "--" + s) == [p] + SplitDouble(s)
  {
    var t := p + "--" + s;
    if p == "" {
      assert t[2..] == s;
    } else {
      assert t[0] == p[0] && t[1..] == p[1..] + "--" + s;
      assert |p| > 1 ==> t[1] == p[1] && !(p[0] == '-' && p[0 + 1] == '-');
      SplitDoubleAfter(p[1..], s);
      assert [p[0]] + p[1..] == p;
    }
  }

  lemma {:induction false} NoDoubleIsOnePart(s: string)
    ensures NoDouble(s) <==> |SplitDouble(s)| == 1
    ensures NoDouble(s) ==> SplitDouble(s) == [s]
  {
    if |s| >= 2 {
      NoDoubleIsOnePart(s[1..]);
      if s[0] == '-' && s[1] == '-' {
        assert s[0 + 1] == '-';
      } else {
        NoDoubleTail(s);
        assert [s[0]] + s[1..] == s;
      }
    }
  }

  lemma NoDoubleTail(s: string)
    requires |s| >= 2 && !(s[0] == '-' && s[1] == '-')
    ensures NoDouble(s) <==> NoDouble(s[1..])
  {
    if NoDouble(s) {
      forall i | 0 <= i < |s| - 2 ensures !(s[1..][i] == '-' && s[1..][i + 1] == '-') {
        assert !(s[i + 1] == '-' && s[i + 1 + 1] == '-');
      }
    }
    if NoDouble(s[1..]) {
      forall i | 0 <= i < |s| - 1 ensures !(s[i] == '-' && s[i + 1] == '-') {
        assert i > 0 ==> !(s[1..][i - 1] == '-' && s[1..][i - 1 + 1] == '-');
      }
    }
  }

  /** A doubled hyphen before the one that joins makes a third part. */
  lemma {:induction false} DoubleBefore(p: string, s: string)
    requires !NoDouble(p)
    ensures |SplitDouble(p + "--" + s)| >= 3
  {
    var t := p + "--" + s;
    if p[0] == '-' && p[1] == '-' {
      var rest := p[2..] + "--" + s;
      assert t[2..] == rest;
      NoDoubleIsOnePart(rest);
      assert rest[|p| - 2] == '-' && rest[|p| - 2 + 1] == '-';
    } else {
      NoDoubleTail(p);
      DoubleBefore(p[1..], s);
      assert t[0] == p[0] && t[1] == p[1] && t[1..] == p[1..] + "--" + s;
    }
  }

  /** A half of letters, digits, '_' and '-', at least one, behind which one
      newline may stand. */
  ghost predicate IsNameHalf(half: string) {
    exists core: string :: IsNameText(core) && (half == core || half == core + "\n")
  }

  predicate IsNameText(s: string) {
    s != "" && forall c :: c in s ==> 'a' <= c <= 'z' || 'A' <= c <= 'Z' || '0' <= c <= '9' || c == '_' || c == '-'
  }

  lemma IsNameHalfIff(half: string)
    ensures IsNameHalf(half) <==> MatchesValidName(half)
  {
    if core: string :| IsNameText(core) && (half == core || half == core + "\n") {
      assert core[|core| - 1] in core;
      assert half == core + "\n" ==> half[..|half| - 1] == core;
    }
    if MatchesValidName(half) {
      var core := Chomp(half);
      assert IsNameText(core);
      assert half == core || half == core + "\n";
    }
  }

  /** Where org--key is cut: at its first doubled hyphen, which begins one
      character early if the first half ends in a hyphen. */
  function LegacyHalves(orgId: string, secretKey: string): (string, string) {
    if orgId != "" && orgId[|orgId| - 1] == '-' then (orgId[..|orgId| - 1], "-" + secretKey) else (orgId, secretKey)
  }

  /** A name of the legacy form, org--key, is recognised exactly when neither
      half as cut holds another doubled hyphen and both are made of letters,
      digits, '_' and '-'. */
  lemma LegacyNameIsReferenceIff(orgId: string, secretKey: string)
    requires !("bifrost-" <= orgId + "--" + secretKey && |Split(orgId + "--" + secretKey, '-')| >= 9)
    ensures var (first, second) := LegacyHalves(orgId, secretKey);
      IsSecretReference(orgId + "--" + secretKey) <==>
        NoDouble(orgId) && NoDouble(second) && IsNameHalf(first) && IsNameHalf(second)
  {
    var name := orgId + "--" + secretKey;
    var (first, second) := LegacyHalves(orgId, secretKey);
    assert name[|orgId|] == '-' && name[|orgId| + 1] == '-';
    IsNameHalfIff(first);
    IsNameHalfIff(second);
    LegacyParts(orgId, secretKey);
  }

  lemma LegacyParts(orgId: string, secretKey: string)
    ensures var parts := SplitDouble(orgId + "--" + secretKey);
      var (first, second) := LegacyHalves(orgId, secretKey);
      && (|parts| == 2 <==> NoDouble(orgId) && NoDouble(second))
      && (|parts| == 2 ==> parts == [first, second])
  {
    var (first, second) := LegacyHalves(orgId, secretKey);
    if NoDouble(orgId) {
      assert orgId + "--" + secretKey == first + "--" + second;
      if first != "" {
        var last := |first| - 1;
        assert first[last] == orgId[last] && (first != orgId ==> orgId[last + 1] == '-');
      }
      SplitDoubleAfter(first, second);
      NoDoubleIsOnePart(second);
    } else {
      DoubleBefore(orgId, secretKey);
    }
  }

  /** A name that is generated but not recognised: scope acme, component
      token. */
  lemma SimpleNameIsNoReference(lower: Lower, uuid: string)
    requires KeepsPlain(lower) && IsUuid(uuid)
    ensures var name := GenerateSecretName(lower, "acme", "token", "bifrost", uuid);
      name.Ok? && !IsSecretReference(name.value)
  {
    assert IsSanitized("acme") && IsSanitized("token");
    SanitizeFixesIff(lower, "acme");
    SanitizeFixesIff(lower, "token");
    PlainNameIff(lower, "acme", "token", uuid);
    PlainNameIsReferenceIff(lower, "acme", "token", uuid);
  }
}
