/** Config values on their way into storage and back: config.set, config.get
    and _configs_to_dict (bifrost/config.py), ConfigResolver
    (shared/config_resolver.py).

    `Env` gathers what the code leans on: json.dumps and json.loads, and
    str.lower. They are a pair of inverses on dicts and lists, and lower does
    what it should on the four spellings of the truth values. */
module ConfigValues {
  import opened Wrappers
  import opened Strings
  import opened Decimal

  datatype Error = ValueError | KeyError | RuntimeError

  /** A Python value. `Doc` is any dict or list; `Rest` is anything else
      (float, None, ...), with its str(). */
  datatype Value = Bool(b: bool) | Int(n: int) | Str(s: string) | Doc(code: nat) | Rest(shown: string)

  datatype ConfigType = STRING | INT | BOOL | JSON | SECRET_REF

  datatype Stored = Stored(text: string, configType: ConfigType)

  datatype Env = Env(dumps: nat -> string, loads: string -> Option<Value>, lower: string -> string)

  ghost predicate Good(env: Env) {
    && (forall code :: env.loads(env.dumps(code)) == Some(Doc(code)))
    && env.lower("True") == env.lower("true") == "true"
    && env.lower("False") == env.lower("false") == "false"
  }

  // ------------------------------------------------------------- int(text)

  /** Digits with single underscores between them. */
  predicate IsNumeral(s: string) {
    && s != ""
    && (forall c :: c in s ==> IsDigit(c) || c == '_')
    && s[0] != '_' && s[|s| - 1] != '_'
    && forall i :: 0 <= i < |s| - 1 ==> !(s[i] == '_' && s[i + 1] == '_')
  }

  function WithoutUnderscores(s: string): (t: string)
    ensures (forall c :: c in s ==> IsDigit(c) || c == '_') ==> forall c :: c in t ==> IsDigit(c)
  {
    if s == "" then "" else (if s[0] == '_' then "" else [s[0]]) + WithoutUnderscores(s[1..])
  }

  function ParseNatural(s: string): Option<int> {
    if IsNumeral(s) then Some(Decimal.Value(WithoutUnderscores(s))) else None
  }

  /** int(text), for ASCII digits. */
  function ParseInt(text: string): Option<int> {
    var s := Trim(text);
    if s != "" && s[0] == '-' then
      match ParseNatural(s[1..])
      case Some(n) => Some(-n)
      case None => None
    else if s != "" && s[0] == '+' then ParseNatural(s[1..])
    else ParseNatural(s)
  }

  lemma {:induction false} DigitsHaveNoUnderscore(s: string)
    requires forall c :: c in s ==> IsDigit(c)
    ensures WithoutUnderscores(s) == s
  {
    if s != "" {
      DigitsHaveNoUnderscore(s[1..]);
      assert s[0] in s && s == [s[0]] + s[1..];
    }
  }

  lemma ParsesItsDigits(n: nat)
    ensures ParseNatural(Digits(n)) == Some(n)
  {
    var s := Digits(n);
    forall i | 0 <= i < |s| ensures s[i] != '_' {
      assert s[i] in s;
    }
    DigitsHaveNoUnderscore(s);
    ValueOfDigits(n);
  }

  /** int(str(n)) == n, for every integer. */
  lemma ParseIntOfStr(n: int)
    ensures ParseInt(Decimal.Str(n)) == Some(n)
  {
    var s := Decimal.Str(n);
    if n < 0 {
      ParsesItsDigits(-n);
      assert s[1..] == Digits(-n);
      assert s[|s| - 1] in Digits(-n);
    } else {
      ParsesItsDigits(n);
      assert s[0] in s && s[|s| - 1] in s;
    }
    assert !IsSpace(s[0]) && !IsSpace(s[|s| - 1]);
    assert Trim(s) == s;
  }

  lemma {:induction false} TrimsAround(lead: string, s: string, trail: string)
    requires forall c :: c in lead + trail ==> IsSpace(c)
    requires s != "" && !IsSpace(s[0]) && !IsSpace(s[|s| - 1])
    ensures Trim(lead + s + trail) == s
    decreases |lead| + |trail|
  {
    var text := lead + s + trail;
    if lead != "" {
      TrimsAround(lead[1..], s, trail);
      assert lead[0] in lead + trail && text[1..] == lead[1..] + s + trail;
    } else if trail != "" {
      var shorter := trail[..|trail| - 1];
      TrimsAround(lead, s, shorter);
      assert trail[|trail| - 1] in lead + trail && text[..|text| - 1] == lead + s + shorter;
      assert TrimLeft(text) == text && TrimLeft(lead + s + shorter) == lead + s + shorter;
    } else {
      assert text == s;
    }
  }

  lemma ParseSigned(text: string, sign: string, s: string, n: int)
    requires text == sign + s && Trim(text) == text && s != "" && IsDigit(s[0])
    requires sign == "" || sign == "+" || sign == "-"
    requires ParseNatural(s) == Some(n)
    ensures ParseInt(text) == Some(if sign == "-" then -n else n)
  {
    if sign == "" {
      assert text == s;
    } else {
      assert text[1..] == s;
    }
  }

  /** int() reads a number with blanks around it, a sign before it, and an
      underscore between two digits. */
  lemma ParseIntReads(lead: string, sign: string, front: string, back: string, trail: string)
    requires forall c :: c in lead + trail ==> IsSpace(c)
    requires sign == "" || sign == "+" || sign == "-"
    requires front != "" && back != "" && forall c :: c in front + back ==> IsDigit(c)
    ensures var n: int := Decimal.Value(front + back);
      ParseInt(lead + (sign + (front + "_" + back)) + trail) == Some(if sign == "-" then -n else n)
  {
    var s := front + "_" + back;
    var text := sign + s;
    NumeralWithUnderscore(front, back);
    assert s[0] in front + back && s[|s| - 1] == back[|back| - 1] && back[|back| - 1] in front + back;
    assert text[0] == (if sign == "" then s[0] else sign[0]) && text[|text| - 1] == s[|s| - 1];
    TrimsAround(lead, text, trail);
    assert Trim(text) == text;
    ParseSigned(text, sign, s, Decimal.Value(front + back));
  }

  /** It refuses the empty text, letters, and an underscore that is not between
      two digits. */
  lemma ParseIntRefuses(digits: string, more: string)
    requires digits != "" && forall c :: c in digits + more ==> IsDigit(c)
    ensures ParseInt("") == None
    ensures ParseInt(digits + "_") == None && ParseInt("_" + digits) == None
    ensures ParseInt(digits + "__" + more) == None
    ensures ParseInt(digits + "x" + more) == None
  {
    assert digits[0] in digits + more && digits[|digits| - 1] in digits + more;
    RefusedNumeral(digits + "_");
    RefusedNumeral("_" + digits);
    var doubled, lettered := digits + "__" + more, digits + "x" + more;
    assert doubled[|digits|] == '_' && doubled[|digits| + 1] == '_';
    assert lettered[|digits|] == 'x' && 'x' in lettered;
    assert more != "" ==> more[|more| - 1] in digits + more;
    RefusedNumeral(doubled);
    RefusedNumeral(lettered);
  }

  lemma RefusedNumeral(s: string)
    requires s != "" && (IsDigit(s[0]) || s[0] == '_') && !IsSpace(s[|s| - 1]) && !IsNumeral(s)
    ensures ParseInt(s) == None
  {
    assert Trim(s) == s;
  }

  lemma NumeralWithUnderscore(front: string, back: string)
    requires front != "" && back != "" && forall c :: c in front + back ==> IsDigit(c)
    ensures ParseNatural(front + "_" + back) == Some(Decimal.Value(front + back))
  {
    var s := front + "_" + back;
    forall i | 0 <= i < |s| && i != |front| ensures IsDigit(s[i]) {
      assert s[i] in front + back;
    }
    assert forall c :: c in s ==> IsDigit(c) || c == '_';
    UnderscoreGoes(front, back);
  }

  lemma {:induction false} UnderscoreGoes(front: string, back: string)
    requires forall c :: c in front + back ==> IsDigit(c)
    ensures WithoutUnderscores(front + "_" + back) == front + back
  {
    var s := front + "_" + back;
    if front == "" {
      assert s[1..] == back && front + back == back;
      assert forall c :: c in back ==> c in front + back;
      DigitsHaveNoUnderscore(back);
    } else {
      assert front[0] in front + back;
      assert forall c :: c in front[1..] + back ==> c in front + back;
      UnderscoreGoes(front[1..], back);
      assert s[1..] == front[1..] + "_" + back;
      assert [front[0]] + (front[1..] + back) == front + back;
    }
  }

  // --------------------------------------------------- encode and decode

  /** What config.set stores. */
  function Encode(env: Env, v: Value): Stored {
    match v
    case Doc(code) => Stored(env.dumps(code), JSON)
    case Bool(b) => Stored(env.lower(if b then "True" else "False"), BOOL)
    case Int(n) => Stored(Decimal.Str(n), INT)
    case Str(s) => Stored(s, STRING)
    case Rest(shown) => Stored(shown, STRING)
  }

  /** ConfigResolver._parse_value */
  function ParseValue(env: Env, c: Stored): Result<Value, Error> {
    match c.configType
    case INT => (match ParseInt(c.text) case Some(n) => Ok(Int(n)) case None => Err(ValueError))
    case BOOL => Ok(Bool(env.lower(c.text) in ["true", "1", "yes"]))
    case JSON => (match env.loads(c.text) case Some(v) => Ok(v) case None => Err(ValueError))
    case STRING => Ok(Str(c.text))
    case SECRET_REF => Ok(Str(c.text))
  }

  /** One value of _configs_to_dict. */
  function ListedValue(env: Env, c: Stored): Value {
    match c.configType
    case JSON => (match env.loads(c.text) case Some(v) => v case None => Str(c.text))
    case BOOL => Bool(env.lower(c.text) == "true")
    case INT => (match ParseInt(c.text) case Some(n) => Int(n) case None => Str(c.text))
    case STRING => Str(c.text)
    case SECRET_REF => Str(c.text)
  }

  /** A value comes back as it was exactly when it is a boolean, an integer,
      a string or a JSON document; anything else comes back as its str(). */
  lemma RoundTripIff(env: Env, v: Value)
    requires Good(env)
    ensures ParseValue(env, Encode(env, v)) == Ok(v) <==> !v.Rest?
    ensures v.Rest? ==> ParseValue(env, Encode(env, v)) == Ok(Str(v.shown))
  {
    if v.Int? {
      ParseIntOfStr(v.n);
    }
  }

  /** Where the two decoders agree, on any stored text: everywhere but on the
      spellings 1 and yes of a boolean, and on texts that do not parse, which
      one of them refuses and the other hands out raw. */
  lemma DecodersAgreeIff(env: Env, c: Stored)
    ensures ParseValue(env, c) == Ok(ListedValue(env, c)) <==>
      match c.configType
      case BOOL => env.lower(c.text) != "1" && env.lower(c.text) != "yes"
      case INT => ParseInt(c.text).Some?
      case JSON => env.loads(c.text).Some?
      case _ => true
    ensures ParseValue(env, c).Err? ==> ParseValue(env, c) == Err(ValueError) && ListedValue(env, c) == Str(c.text)
    ensures c.configType == BOOL && ParseValue(env, c) != Ok(ListedValue(env, c)) ==>
      ParseValue(env, c) == Ok(Bool(true)) && ListedValue(env, c) == Bool(false)
  {
  }

  /** They agree on everything config.set can store. */
  lemma DecodersAgreeOnEncoded(env: Env, v: Value)
    requires Good(env)
    ensures ParseValue(env, Encode(env, v)) == Ok(ListedValue(env, Encode(env, v)))
  {
    DecodersAgreeIff(env, Encode(env, v));
    if v.Int? {
      ParseIntOfStr(v.n);
    }
  }

  // ---------------------------------------------------------- the store

  /** The last configuration of a key counts. */
  function LastOf(configs: seq<(string, Stored)>, key: string): Option<Stored> {
    if configs == [] then None
    else
      var n := |configs| - 1;
      if configs[n].0 == key then Some(configs[n].1) else LastOf(configs[..n], key)
  }

  method ConfigsToDict(env: Env, configs: seq<(string, Stored)>) returns (configDict: map<string, Value>)
    ensures forall k :: k in configDict <==> LastOf(configs, k).Some?
    ensures forall k :: k in configDict ==> configDict[k] == ListedValue(env, LastOf(configs, k).value)
  {
    configDict := map[];
    for i := 0 to |configs|
      invariant forall k :: k in configDict <==> LastOf(configs[..i], k).Some?
      invariant forall k :: k in configDict ==> configDict[k] == ListedValue(env, LastOf(configs[..i], k).value)
    {
      assert configs[..i + 1][..i] == configs[..i];
      var (key, cfg) := configs[i];
      match cfg.configType {
        case JSON =>
          var loaded := env.loads(cfg.text);
          configDict := configDict[key := if loaded.Some? then loaded.value else Str(cfg.text)];
        case BOOL =>
          configDict := configDict[key := Bool(env.lower(cfg.text) == "true")];
        case INT =>
          var parsed := ParseInt(cfg.text);
          configDict := configDict[key := if parsed.Some? then Int(parsed.value) else Str(cfg.text)];
        case _ =>
          configDict := configDict[key := Str(cfg.text)];
      }
    }
    assert configs[..|configs|] == configs;
  }

  /** An entry of the resolver's config_data: a plain text, or value and type. */
  datatype Entry = Plain(text: string) | Typed(stored: Stored)

  /** ConfigResolver.get_config. `vault` is what Key Vault holds. */
  function GetConfig(env: Env, vault: map<string, string>, data: map<string, Entry>, key: string,
                     default: Option<Value>): Result<Value, Error> {
    if key !in data then
      if default.Some? then Ok(default.value) else Err(KeyError)
    else match data[key]
      case Plain(text) => Ok(Str(text))
      case Typed(c) =>
        if c.configType == SECRET_REF then
          if c.text in vault then Ok(Str(vault[c.text])) else Err(ValueError)
        else ParseValue(env, c)
  }

  /** What the resolver answers: a default only for a missing key, a secret's
      value for a reference to one, never the reference. */
  lemma ResolverAnswers(env: Env, vault: map<string, string>, data: map<string, Entry>, key: string,
                        default: Option<Value>)
    ensures var r := GetConfig(env, vault, data, key, default);
      && (r == Err(KeyError) <==> key !in data && default.None?)
      && (key !in data && default.Some? ==> r == Ok(default.value))
      && (key in data && data[key].Plain? ==> r == Ok(Str(data[key].text)))
      && (forall name :: key in data && data[key] == Typed(Stored(name, SECRET_REF)) ==>
           (name in vault ==> r == Ok(Str(vault[name]))) && (name !in vault ==> r == Err(ValueError)))
  {
  }

  class Config {
    var entries: map<string, Stored>

    constructor ()
      ensures entries == map[]
    {
      entries := map[];
    }

    method Set(env: Env, key: string, value: Value)
      modifies this
      ensures entries == old(entries)[key := Encode(env, value)]
    {
      var configType, text;
      match value {
        case Doc(code) => configType, text := JSON, env.dumps(code);
        case Bool(b) => configType, text := BOOL, env.lower(if b then "True" else "False");
        case Int(n) => configType, text := INT, Decimal.Str(n);
        case Str(s) => configType, text := STRING, s;
        case Rest(shown) => configType, text := STRING, shown;
      }
      entries := entries[key := Stored(text, configType)];
    }

    /** A value that cannot be resolved or parsed is a RuntimeError here. */
    method Get(env: Env, vault: map<string, string>, key: string, default: Value) returns (r: Result<Value, Error>)
      ensures key !in entries ==> r == Ok(default)
      ensures key in entries && entries[key].configType == SECRET_REF ==>
        r == if entries[key].text in vault then Ok(Str(vault[entries[key].text])) else Err(RuntimeError)
      ensures key in entries && entries[key].configType != SECRET_REF ==>
        var parsed := ParseValue(env, entries[key]);
        r == if parsed.Ok? then parsed else Err(RuntimeError)
    {
      if key !in entries {
        return Ok(default);
      }
      var got := GetConfig(env, vault, map[key := Typed(entries[key])], key, Some(default));
      if got == Err(ValueError) {
        return Err(RuntimeError);
      }
      return got;
    }
  }

  /** Set, then get, through the resolver: the value itself, or its str() for
      kinds that have no type of their own. Never a secret, never an error. */
  method SetThenGet(config: Config, env: Env, vault: map<string, string>, key: string, value: Value, default: Value)
    returns (r: Result<Value, Error>)
    requires Good(env)
    modifies config
    ensures r == Ok(if value.Rest? then Str(value.shown) else value)
    ensures config.entries - {key} == old(config.entries) - {key}
  {
    config.Set(env, key, value);
    r := config.Get(env, vault, key, default);
    RoundTripIff(env, value);
  }
}
