/** The GitHub integration's stored state (functions/http/
    github_integration.py, shared/repositories/config.py): a row in the
    Config table that names a Key Vault secret, and the secret.

    Requests follow one another, but any of them may stop after any of its
    writes. Whether a token lists repositories, whether Git initialisation
    succeeds and whether Key Vault answers is up to the outside. */
module GitHubLifecycle {
  import opened Wrappers
  import opened SecretNaming

  datatype Status = Disconnected | TokenSaved | Configured

  datatype GitHubConfig = GitHubConfig(
    status: Status,
    secretRef: Option<string>,
    repoUrl: Option<string>,
    branch: Option<string>)

  /** `lastToken` is bookkeeping: the token written to Key Vault last. */
  datatype Store = Store(config: Option<GitHubConfig>, vault: map<string, string>, lastToken: Option<string>)

  datatype Answer = Done | MissingToken | NotConfigured | Failed

  predicate HasRef(s: Store) {
    s.config.Some? && s.config.value.secretRef.Some? && s.config.value.secretRef.value != ""
  }

  /** The outside's part in a request. */
  datatype Outside = Outside(lower: Lower, uuid: string, tokenWorks: bool, gitWorks: bool, vaultAnswers: bool)

  ghost predicate Plausible(o: Outside) {
    KeepsPlain(o.lower) && IsUuid(o.uuid)
  }

  function FreshName(o: Outside): Result<string, SecretNaming.Error> {
    GenerateSecretName(o.lower, "global", "github-token", "bifrost", o.uuid)
  }

  lemma FreshNameFront()
    ensures "bifrost-" + "global" + "-" + "github-token" + "-" == "bifrost-global-github-token-"
  {
  }

  lemma PartsAreSanitized(o: Outside)
    requires Plausible(o)
    ensures Sanitize(o.lower, "global") == "global"
    ensures Sanitize(o.lower, "github-token") == "github-token" && '-' in "github-token"
  {
    assert IsSanitized("global") && IsSanitized("github-token");
    SanitizeFixesIff(o.lower, "global");
    SanitizeFixesIff(o.lower, "github-token");
    assert "github-token"[6] == '-';
  }

  /** Generating this name never fails, and the name is one the platform
      recognises as a secret reference. */
  lemma FreshNameIsReference(o: Outside)
    requires Plausible(o)
    ensures FreshName(o) == Ok("bifrost-global-github-token-" + o.uuid)
    ensures IsSecretReference(FreshName(o).value)
  {
    PartsAreSanitized(o);
    var scope, component := "global", "github-token";
    PlainNameIff(o.lower, scope, component, o.uuid);
    PlainNameIsReferenceIff(o.lower, scope, component, o.uuid);
    FreshNameFront();
  }

  // -------------------------------------------------------------- writes

  /** Upserting the row merges: a column without a value keeps its old one. */
  function Saved(s: Store, c: GitHubConfig): Store {
    if s.config.None? then s.(config := Some(c))
    else
      var was := s.config.value;
      s.(config := Some(GitHubConfig(c.status,
        if c.secretRef.Some? then c.secretRef else was.secretRef,
        if c.repoUrl.Some? then c.repoUrl else was.repoUrl,
        if c.branch.Some? then c.branch else was.branch)))
  }

  function SecretSet(s: Store, name: string, token: string): Store {
    s.(vault := s.vault[name := token], lastToken := Some(token))
  }

  /** Saving replaces the status and the columns that are given, and keeps the
      others. */
  lemma SavingKeepsTheRest(s: Store, c: GitHubConfig)
    requires s.config.Some?
    ensures var was, now := s.config.value, Saved(s, c).config.value;
      && Saved(s, c) == s.(config := Some(now)) && now.status == c.status
      && (now.secretRef == c.secretRef || (c.secretRef.None? && now.secretRef == was.secretRef))
      && (now.repoUrl == c.repoUrl || (c.repoUrl.None? && now.repoUrl == was.repoUrl))
      && (now.branch == c.branch || (c.branch.None? && now.branch == was.branch))
      && (was.secretRef.Some? ==> now.secretRef.Some?) && (was.repoUrl.Some? ==> now.repoUrl.Some?)
      && (was.branch.Some? ==> now.branch.Some?)
  {
  }

  // ------------------------------------------------------------- requests

  datatype Request =
    | Validate(token: string)
    | Configure(repoUrl: string, branch: string)
    | Disconnect

  function RefFor(s: Store, o: Outside): Result<string, SecretNaming.Error> {
    if HasRef(s) then Ok(s.config.value.secretRef.value) else FreshName(o)
  }

  /** The store after the first `writes` writes of a request, and the answer
      if it was not stopped. */
  function Handled(s: Store, r: Request, o: Outside, writes: nat): (Store, Answer) {
    match r
    case Validate(token) =>
      if token == "" then (s, MissingToken)
      else if !o.tokenWorks || RefFor(s, o).Err? || !o.vaultAnswers then (s, Failed)
      else
        var ref := RefFor(s, o).value;
        var s1 := SecretSet(s, ref, token);
        var c := GitHubConfig(TokenSaved, Some(ref),
          if s.config.Some? then s.config.value.repoUrl else None,
          if s.config.Some? then s.config.value.branch else None);
        (if writes == 0 then s else if writes == 1 then s1 else Saved(s1, c), Done)
    case Configure(repoUrl, branch) =>
      if repoUrl == "" then (s, Failed)
      else if !HasRef(s) then (s, NotConfigured)
      else if !o.vaultAnswers || s.config.value.secretRef.value !in s.vault || !o.gitWorks then (s, Failed)
      else
        var c := GitHubConfig(Configured, s.config.value.secretRef, Some(repoUrl), Some(branch));
        (if writes == 0 then s else Saved(s, c), Done)
    case Disconnect =>
      if s.config.None? then (s, NotConfigured)
      else (if writes == 0 then s else s.(config := Some(s.config.value.(status := Disconnected))), Done)
  }

  const ALL_WRITES: nat := 2

  /** _get_github_token */
  function Token(s: Store, o: Outside): Option<string> {
    if !HasRef(s) || s.config.value.status == Disconnected then None
    else
      var ref := s.config.value.secretRef.value;
      if o.vaultAnswers && ref in s.vault then Some(s.vault[ref]) else None
  }

  class GitHubIntegration {
    var config: Option<GitHubConfig>
    var vault: map<string, string>
    var lastToken: Option<string>

    function Contents(): Store
      reads this
    {
      Store(config, vault, lastToken)
    }

    constructor ()
      ensures Contents() == Store(None, map[], None)
    {
      config, vault, lastToken := None, map[], None;
    }

    method SaveConfig(c: GitHubConfig)
      modifies this`config
      ensures Contents() == Saved(old(Contents()), c)
    {
      if config.None? {
        config := Some(c);
      } else {
        var was := config.value;
        config := Some(GitHubConfig(c.status,
          if c.secretRef.Some? then c.secretRef else was.secretRef,
          if c.repoUrl.Some? then c.repoUrl else was.repoUrl,
          if c.branch.Some? then c.branch else was.branch));
      }
    }

    method ValidateToken(token: string, o: Outside) returns (a: Answer)
      modifies this
      ensures (Contents(), a) == Handled(old(Contents()), Validate(token), o, ALL_WRITES)
    {
      if token == "" {
        return MissingToken;
      }
      if !o.tokenWorks {
        return Failed;
      }
      var existing := config;
      var secretRef;
      if existing.Some? && existing.value.secretRef.Some? && existing.value.secretRef.value != "" {
        secretRef := existing.value.secretRef.value;
      } else {
        var generated := FreshName(o);
        if generated.Err? {
          return Failed;
        }
        secretRef := generated.value;
      }
      if !o.vaultAnswers {
        return Failed;
      }
      vault, lastToken := vault[secretRef := token], Some(token);
      SaveConfig(GitHubConfig(TokenSaved, Some(secretRef),
        if existing.Some? then existing.value.repoUrl else None,
        if existing.Some? then existing.value.branch else None));
      return Done;
    }

    method ConfigureRepo(repoUrl: string, branch: string, o: Outside) returns (a: Answer)
      modifies this`config
      ensures (Contents(), a) == Handled(old(Contents()), Configure(repoUrl, branch), o, ALL_WRITES)
    {
      if repoUrl == "" {
        return Failed;
      }
      var existing := config;
      if existing.None? || existing.value.secretRef.None? || existing.value.secretRef.value == "" {
        return NotConfigured;
      }
      if !o.vaultAnswers || existing.value.secretRef.value !in vault {
        return Failed;
      }
      if !o.gitWorks {
        return Failed;
      }
      SaveConfig(GitHubConfig(Configured, existing.value.secretRef, Some(repoUrl), Some(branch)));
      return Done;
    }

    method DisconnectRepo() returns (a: Answer)
      modifies this`config
      ensures forall o :: (Contents(), a) == Handled(old(Contents()), Disconnect, o, ALL_WRITES)
    {
      if config.None? {
        return NotConfigured;
      }
      config := Some(config.value.(status := Disconnected));
      return Done;
    }

    method GetGithubToken(o: Outside) returns (token: Option<string>)
      ensures token == Token(Contents(), o)
    {
      if config.None? || config.value.secretRef.None? || config.value.secretRef.value == "" {
        return None;
      }
      if config.value.status == Disconnected {
        return None;
      }
      var ref := config.value.secretRef.value;
      if !o.vaultAnswers || ref !in vault {
        return None;
      }
      return Some(vault[ref]);
    }
  }

  // ------------------------------------------------------------ every run

  ghost predicate Leads(s: Store, s': Store, r: Request, o: Outside, writes: nat) {
    Plausible(o) && s' == Handled(s, r, o, writes).0
  }

  ghost predicate Next(s: Store, s': Store) {
    exists r, o, writes :: Leads(s, s', r, o, writes)
  }

  ghost predicate Run(run: seq<Store>) {
    && run != [] && run[0].config == None && run[0].lastToken == None
    && forall k :: 0 < k < |run| ==> Next(run[k - 1], run[k])
  }

  ghost predicate Inv(s: Store) {
    && (s.config.Some? ==> HasRef(s))
    // Key Vault holds the last token written, under the reference
    && (HasRef(s) ==>
         && s.config.value.secretRef.value in s.vault
         && s.lastToken == Some(s.vault[s.config.value.secretRef.value]))
    // a configured integration is complete
    && (s.config.Some? && s.config.value.status == Configured ==>
         s.config.value.repoUrl.Some? && s.config.value.branch.Some?)
  }

  /** What every step keeps: the invariant, and a reference once it is set. */
  ghost predicate Keeps(s: Store, s': Store) {
    Inv(s) ==> Inv(s') && (HasRef(s) ==> HasRef(s') && s'.config.value.secretRef == s.config.value.secretRef)
  }

  lemma NextKeeps(s: Store, s': Store)
    requires Next(s, s')
    ensures Keeps(s, s')
  {
    var r, o, writes :| Leads(s, s', r, o, writes);
    FreshNameIsReference(o);
  }

  /** A run of steps that keep these things, whatever else they do. */
  ghost predicate KeepingRun(run: seq<Store>) {
    run != [] && Inv(run[0]) && forall k :: 0 < k < |run| ==> Keeps(run[k - 1], run[k])
  }

  lemma RunKeeps(run: seq<Store>)
    requires Run(run)
    ensures KeepingRun(run)
  {
    forall k | 0 < k < |run| ensures Keeps(run[k - 1], run[k]) {
      NextKeeps(run[k - 1], run[k]);
    }
  }

  lemma {:induction false} KeptInv(run: seq<Store>, k: nat)
    requires KeepingRun(run) && k < |run|
    ensures Inv(run[k])
  {
    if k > 0 {
      KeptInv(run, k - 1);
      assert Keeps(run[k - 1], run[k]);
    }
  }

  lemma {:induction false} KeptReference(run: seq<Store>, k: nat, m: nat)
    requires KeepingRun(run) && k <= m < |run| && HasRef(run[k])
    ensures HasRef(run[m]) && run[m].config.value.secretRef == run[k].config.value.secretRef
  {
    if k < m {
      KeptReference(run, k, m - 1);
      KeptInv(run, m - 1);
      assert Keeps(run[m - 1], run[m]);
    }
  }

  /** Once there is a secret reference, it is there for good and the same. */
  lemma ReferenceNeverChanges(run: seq<Store>, k: nat, m: nat)
    requires Run(run) && k <= m < |run| && HasRef(run[k])
    ensures HasRef(run[m]) && run[m].config.value.secretRef == run[k].config.value.secretRef
  {
    RunKeeps(run);
    KeptReference(run, k, m);
  }

  /** In every run, at every point, also between the writes of a request:
      a token is handed out exactly when there is a configuration that is not
      disconnected, and it is the token written to Key Vault last; and a
      configured integration has a secret, a repository and a branch. */
  lemma TokenIsTheLastWritten(run: seq<Store>, k: nat, o: Outside)
    requires Run(run) && k < |run| && o.vaultAnswers
    ensures Token(run[k], o) ==
      if run[k].config.Some? && run[k].config.value.status != Disconnected then run[k].lastToken else None
    ensures forall dead: Outside :: !dead.vaultAnswers ==> Token(run[k], dead) == None
    ensures run[k].config.Some? ==> HasRef(run[k]) && run[k].config.value.secretRef.value in run[k].vault
    ensures run[k].config.Some? && run[k].config.value.status == Configured ==>
      run[k].config.value.repoUrl.Some? && run[k].config.value.branch.Some?
  {
    RunKeeps(run);
    KeptInv(run, k);
  }

  /** When a request succeeds, exactly; and one that does not, or stops before its
      first write, changes nothing. In particular a token that lists no
      repositories is not saved. */
  lemma DoneIff(s: Store, r: Request, o: Outside, writes: nat)
    requires Plausible(o)
    ensures var (s', answer) := Handled(s, r, o, writes);
      && (answer == Done <==>
           match r
           case Validate(token) => token != "" && o.tokenWorks && o.vaultAnswers
           case Configure(repoUrl, _) =>
             repoUrl != "" && HasRef(s) && o.vaultAnswers && s.config.value.secretRef.value in s.vault && o.gitWorks
           case Disconnect => s.config.Some?)
      && (answer == MissingToken <==> r.Validate? && r.token == "")
      && (answer == NotConfigured <==>
           (r.Configure? && r.repoUrl != "" && !HasRef(s)) || (r.Disconnect? && s.config.None?))
      && (answer != Done || writes == 0 ==> s' == s)
  {
    FreshNameIsReference(o);
  }

  /** What a request that is answered Done has done: a validation's token is
      the one handed out next, under the same reference if there was one, and
      repository and branch stay; a configuration sets both and touches no
      secret; after a disconnection no token is handed out, and a later
      validation finds everything else still there. */
  lemma DoneMeans(s: Store, r: Request, o: Outside, later: Outside)
    requires Inv(s) && Plausible(o) && later.vaultAnswers && Handled(s, r, o, ALL_WRITES).1 == Done
    ensures var s' := Handled(s, r, o, ALL_WRITES).0;
      && s'.config.Some?
      && (HasRef(s) ==> s'.config.value.secretRef == s.config.value.secretRef)
      && match r
         case Validate(token) =>
           && Token(s', later) == Some(token)
           && s'.config.value.status == TokenSaved
           && (s.config.Some? ==>
                && s'.config.value.repoUrl == s.config.value.repoUrl
                && s'.config.value.branch == s.config.value.branch)
         case Configure(repoUrl, branch) =>
           && s'.vault == s.vault && Token(s', later) == s.lastToken
           && s'.config.value == GitHubConfig(Configured, s.config.value.secretRef, Some(repoUrl), Some(branch))
         case Disconnect =>
           && s'.vault == s.vault && Token(s', later) == None
           && s.config.Some? && s'.config.value == s.config.value.(status := Disconnected)
  {
    FreshNameIsReference(o);
  }

  /** A Git initialisation that fails leaves everything as it was. */
  lemma FailedGitChangesNothing(s: Store, repoUrl: string, branch: string, o: Outside, writes: nat)
    requires !o.gitWorks
    ensures Handled(s, Configure(repoUrl, branch), o, writes).0 == s
    ensures Handled(s, Configure(repoUrl, branch), o, writes).1 != Done
  {
  }

  /** One request of a history: what was asked, the outside's part, and after
      how many writes it stopped. */
  datatype Step = Step(request: Request, outside: Outside, writes: nat)

  function After(s: Store, history: seq<Step>): Store {
    if history == [] then s
    else
      var last := history[|history| - 1];
      Handled(After(s, history[..|history| - 1]), last.request, last.outside, last.writes).0
  }

  predicate GitFails(x: Step) {
    x.request.Configure? && !x.outside.gitWorks
  }

  function WithoutFailedGit(history: seq<Step>): seq<Step> {
    if history == [] then []
    else
      var n := |history| - 1;
      WithoutFailedGit(history[..n]) + if GitFails(history[n]) then [] else [history[n]]
  }

  /** Taking every configuration whose Git initialisation failed out of a
      history changes nothing about where it leads: not the stored row, not
      the vault, not the token. */
  lemma {:induction false} FailedGitLeavesNoTrace(s: Store, history: seq<Step>)
    ensures After(s, WithoutFailedGit(history)) == After(s, history)
  {
    if history != [] {
      var n := |history| - 1;
      FailedGitLeavesNoTrace(s, history[..n]);
      var kept := WithoutFailedGit(history[..n]);
      if GitFails(history[n]) {
        var r := history[n].request;
        FailedGitChangesNothing(After(s, history[..n]), r.repoUrl, r.branch, history[n].outside, history[n].writes);
        assert kept + [] == kept;
      } else {
        assert (kept + [history[n]])[..|kept|] == kept;
      }
    }
  }

  /** A validation stopped between its two writes, and repeated: it is done,
      and the token is handed out under the reference there was, or under a
      newly generated one. That is where it would have ended exactly when there
      was a reference already or the same name is generated again; otherwise
      the secret written first stays in Key Vault under a name that nothing
      refers to. */
  lemma ValidationResumes(s: Store, token: string, o: Outside, later: Outside)
    requires token != "" && Plausible(o) && Plausible(later)
    requires o.tokenWorks && o.vaultAnswers && later.tokenWorks && later.vaultAnswers
    ensures var stopped := Handled(s, Validate(token), o, 1).0;
      var repeated := Handled(stopped, Validate(token), later, ALL_WRITES);
      && RefFor(s, o).Ok? && RefFor(s, later).Ok?
      && var first, second := RefFor(s, o).value, RefFor(s, later).value;
      && repeated.1 == Done && Token(repeated.0, later) == Some(token)
      && repeated.0.config.value.secretRef == Some(second)
      && repeated.0.vault == s.vault[first := token][second := token]
      && (repeated == Handled(s, Validate(token), o, ALL_WRITES) <==> HasRef(s) || first == second)
      && (first != second ==> first in repeated.0.vault && repeated.0.config.value.secretRef != Some(first))
  {
    FreshNameIsReference(o);
    FreshNameIsReference(later);
    var first, second := RefFor(s, o).value, RefFor(s, later).value;
    var stopped := Handled(s, Validate(token), o, 1).0;
    assert stopped == SecretSet(s, first, token);
    RepeatedStore(s, token, later, stopped);
    RepeatedStore(s, token, o, s);
    if first == second {
      assert SecretSet(stopped, second, token) == stopped;
    }
  }

  lemma RepeatedStore(s: Store, token: string, later: Outside, stopped: Store)
    requires token != "" && Plausible(later) && later.tokenWorks && later.vaultAnswers
    requires stopped.config == s.config
    ensures var ref := RefFor(s, later);
      && ref.Ok? && ref.value != ""
      && var repeated := Handled(stopped, Validate(token), later, ALL_WRITES);
      && repeated.1 == Done && repeated.0.vault == stopped.vault[ref.value := token]
      && repeated.0.lastToken == Some(token)
      && repeated.0.config == Some(GitHubConfig(TokenSaved, Some(ref.value),
           if s.config.Some? then s.config.value.repoUrl else None,
           if s.config.Some? then s.config.value.branch else None))
  {
    FreshNameIsReference(later);
  }
}
