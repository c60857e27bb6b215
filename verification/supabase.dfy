/** The Supabase connection switch (lib/supabase.ts): where the URL and key
    come from, when a client exists, and the one-way "offline" circuit that
    every failed call may trip. The circuit lives here together with the
    classification of call outcomes (services/geminiService.ts), since that
    classification is the only thing that ever trips it. */
module Supabase {
  import opened Common
  import opened JsText

  /** One place configuration may come from: `window.__ENV__`,
      `import.meta.env` or `process.env`. `None` when that object does not
      exist in the running environment. */
  type EnvSource = Option<map<string, string>>

  /** The value `src[key]` when the source exists and holds a truthy (non-empty) value. */
  function Lookup(src: EnvSource, key: string): (r: Option<string>)
    ensures r.Some? <==> src.Some? && key in src.value && src.value[key] != ""
    ensures r.Some? ==> r.value == src.value[key]
  {
    if src.Some? && key in src.value && src.value[key] != "" then Some(src.value[key]) else None
  }

  /** `getEnv(key)`: the runtime injection wins over the build-time variables,
      which win over the process environment; `''` when none has a value. */
  function GetEnv(window: EnvSource, meta: EnvSource, process: EnvSource, key: string): string
  {
    if Lookup(window, key).Some? then Lookup(window, key).value
    else if Lookup(meta, key).Some? then Lookup(meta, key).value
    else if Lookup(process, key).Some? then Lookup(process, key).value
    else ""
  }

  /** Reference definition: the first source in the list that has a value. */
  function FirstValue(sources: seq<EnvSource>, key: string): (r: string)
    decreases |sources|
  {
    if |sources| == 0 then ""
    else if Lookup(sources[0], key).Some? then Lookup(sources[0], key).value
    else FirstValue(sources[1..], key)
  }

  /** `FirstValue` is empty exactly when no source has a value, and otherwise
      it is the value of a source that every earlier source lacks. */
  lemma {:induction false} FirstValueSpec(sources: seq<EnvSource>, key: string)
    ensures FirstValue(sources, key) == "" <==> forall i :: 0 <= i < |sources| ==> Lookup(sources[i], key).None?
    ensures FirstValue(sources, key) != "" ==>
              exists i :: 0 <= i < |sources| && Lookup(sources[i], key) == Some(FirstValue(sources, key))
                          && forall j :: 0 <= j < i ==> Lookup(sources[j], key).None?
    decreases |sources|
  {
    if |sources| > 0 && Lookup(sources[0], key).None? {
      FirstValueSpec(sources[1..], key);
      if FirstValue(sources, key) != "" {
        var i :| 0 <= i < |sources[1..]| && Lookup(sources[1..][i], key) == Some(FirstValue(sources, key))
                 && forall j :: 0 <= j < i ==> Lookup(sources[1..][j], key).None?;
        assert Lookup(sources[i + 1], key) == Some(FirstValue(sources, key));
        forall j | 0 <= j < i + 1
          ensures Lookup(sources[j], key).None?
        {
          if j > 0 {
            assert sources[j] == sources[1..][j - 1];
          }
        }
      }
      if forall i :: 0 <= i < |sources[1..]| ==> Lookup(sources[1..][i], key).None? {
        forall i | 0 <= i < |sources|
          ensures Lookup(sources[i], key).None?
        {
          if i > 0 {
            assert sources[i] == sources[1..][i - 1];
          }
        }
      }
    } else if |sources| > 0 {
      assert Lookup(sources[0], key) == Some(FirstValue(sources, key));
    }
  }

  /** `getEnv` is the first-value rule over the list window, build, process. */
  lemma GetEnvPrecedence(window: EnvSource, meta: EnvSource, process: EnvSource, key: string)
    ensures GetEnv(window, meta, process, key) == FirstValue([window, meta, process], key)
  {
    var l := [window, meta, process];
    assert l[1..] == [meta, process];
    assert [meta, process][1..] == [process];
    assert [process][1..] == [];
    assert FirstValue([process], key) == (if Lookup(process, key).Some? then Lookup(process, key).value else "");
    assert FirstValue([meta, process], key)
        == (if Lookup(meta, key).Some? then Lookup(meta, key).value else FirstValue([process], key));
  }

  const UrlKey := "VITE_PUBLIC_SUPABASE_URL"
  const AnonKeyKey := "VITE_PUBLIC_SUPABASE_ANON_KEY"

  /** A client is created exactly when both the URL and the anonymous key resolve. */
  predicate ClientExists(window: EnvSource, meta: EnvSource, process: EnvSource) {
    GetEnv(window, meta, process, UrlKey) != "" && GetEnv(window, meta, process, AnonKeyKey) != ""
  }

  /** A client exists iff some source provides a URL and some source provides a key. */
  lemma ClientExistsIff(window: EnvSource, meta: EnvSource, process: EnvSource)
    ensures ClientExists(window, meta, process) <==>
              (exists i :: 0 <= i < 3 && Lookup([window, meta, process][i], UrlKey).Some?)
              && (exists i :: 0 <= i < 3 && Lookup([window, meta, process][i], AnonKeyKey).Some?)
  {
    GetEnvPrecedence(window, meta, process, UrlKey);
    GetEnvPrecedence(window, meta, process, AnonKeyKey);
    FirstValueSpec([window, meta, process], UrlKey);
    FirstValueSpec([window, meta, process], AnonKeyKey);
  }

  // ---------------------------------------------------------------------------
  // The offline circuit

  /** The module's mutable state: the `isOffline` flag and how many times the
      "offline mode" warning has been logged. */
  datatype Circuit = Circuit(offline: bool, warnings: nat)

  const Initial := Circuit(false, 0)

  /** `markSupabaseOffline()`: the first call sets the flag and logs once; later calls do nothing. */
  function MarkOffline(c: Circuit): (r: Circuit)
    ensures r.offline
    ensures c.offline ==> r == c
    ensures !c.offline ==> r.warnings == c.warnings + 1
  {
    if c.offline then c else Circuit(true, c.warnings + 1)
  }

  /** `isSupabaseConfigured()`. */
  predicate IsConfigured(c: Circuit, clientExists: bool) {
    !c.offline && clientExists
  }

  lemma MarkOfflineIdempotent(c: Circuit)
    ensures MarkOffline(MarkOffline(c)) == MarkOffline(c)
    ensures !IsConfigured(MarkOffline(c), true)
  {
  }

  /** How a Supabase request ended: with data, with an error object whose
      message may be empty (a missing message is the empty string), or by
      throwing / rejecting. */
  datatype CallOutcome = Succeeded | Failed(message: string) | Threw

  /** The text test the dashboard uses to recognise an unreachable server. */
  predicate IsNetworkMessage(message: string) {
    Contains(message, "Failed to fetch") || Contains(message, "Network")
  }

  /** The effect of one request's outcome on the circuit: a network-looking
      error message or a throw trips it; anything else leaves it alone. */
  function AfterCall(c: Circuit, o: CallOutcome): (r: Circuit)
    ensures c.offline ==> r == c
    ensures r.offline <==> c.offline || o.Threw? || (o.Failed? && IsNetworkMessage(o.message))
  {
    match o
    case Succeeded => c
    case Failed(message) => if IsNetworkMessage(message) then MarkOffline(c) else c
    case Threw => MarkOffline(c)
  }

  /** Plain SQL or permission errors never trip the circuit. */
  lemma SqlErrorKeepsOnline(c: Circuit, message: string)
    requires !Contains(message, "Failed to fetch") && !Contains(message, "Network")
    ensures AfterCall(c, Failed(message)) == c
  {
  }

  /** An empty (missing) error message never trips the circuit. */
  lemma EmptyMessageKeepsOnline(c: Circuit)
    ensures AfterCall(c, Failed("")) == c
  {
    assert !StartsWith("", "Failed to fetch") && !StartsWith("", "Network");
  }

  /** An outcome that trips the circuit. */
  predicate Trips(o: CallOutcome) {
    o.Threw? || (o.Failed? && IsNetworkMessage(o.message))
  }

  /** The circuit after a series of request outcomes. */
  function Run(c: Circuit, outcomes: seq<CallOutcome>): Circuit
    decreases |outcomes|
  {
    if |outcomes| == 0 then c else Run(AfterCall(c, outcomes[0]), outcomes[1..])
  }

  /** From the initial state: the circuit is open exactly when some outcome
      tripped it, the warning is logged at most once, and once open it is
      never closed again. */
  lemma {:induction false} RunFromInitial(c: Circuit, outcomes: seq<CallOutcome>)
    requires c.offline ==> c.warnings == 1
    requires !c.offline ==> c.warnings == 0
    ensures Run(c, outcomes).offline <==> c.offline || exists i :: 0 <= i < |outcomes| && Trips(outcomes[i])
    ensures Run(c, outcomes).warnings == (if Run(c, outcomes).offline then 1 else 0)
    decreases |outcomes|
  {
    if |outcomes| > 0 {
      var next := AfterCall(c, outcomes[0]);
      RunFromInitial(next, outcomes[1..]);
      if exists i :: 0 <= i < |outcomes[1..]| && Trips(outcomes[1..][i]) {
        var i :| 0 <= i < |outcomes[1..]| && Trips(outcomes[1..][i]);
        assert Trips(outcomes[i + 1]);
      }
      if exists i :: 0 <= i < |outcomes| && Trips(outcomes[i]) {
        var i :| 0 <= i < |outcomes| && Trips(outcomes[i]);
        if i > 0 {
          assert Trips(outcomes[1..][i - 1]);
        }
      }
    }
  }

  /** Once offline, the client stays unconfigured for every later call. */
  lemma {:induction false} OfflineIsFinal(c: Circuit, outcomes: seq<CallOutcome>, clientExists: bool)
    requires c.offline
    ensures Run(c, outcomes) == c
    ensures !IsConfigured(Run(c, outcomes), clientExists)
    decreases |outcomes|
  {
    if |outcomes| > 0 {
      OfflineIsFinal(AfterCall(c, outcomes[0]), outcomes[1..], clientExists);
    }
  }
}
