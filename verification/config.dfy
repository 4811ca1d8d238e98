/**
 * AiModelsConfig: the `ai.*` configuration of the bot. Providers and models are
 * looked up by key; an unknown model key falls back to the default model, and
 * the start-up validation guarantees that the default model is defined.
 */
module AiModels {
  import opened Text

  /** `AiModelsConfig.Provider`. */
  datatype Provider = Provider(baseUrl: Option<string>, apiKey: Option<string>)

  /** `AiModelsConfig.Model`. */
  datatype Model = Model(
    provider: Option<string>,
    baseUrl: Option<string>,
    apiKey: Option<string>,
    modelName: Option<string>,
    displayName: Option<string>)

  /** The bound configuration; `defaultModel` is `None` when the property is not set. */
  datatype Config = Config(providers: map<string, Provider>, models: map<string, Model>, defaultModel: Option<string>)

  /** The outcome of `validate`: normal return, or the `IllegalStateException` and its message. */
  datatype Validation = Validated | Invalid(message: string)

  /** `HashMap.get`: the value under `key`, `None` (null) when the key is absent. */
  function Lookup<V>(m: map<string, V>, key: Option<string>): (r: Option<V>)
    ensures r.Some? <==> key.Some? && key.value in m
    ensures r.Some? ==> r.value == m[key.value]
  {
    if key.Some? && key.value in m then Some(m[key.value]) else None
  }

  /** `getProvider`: a plain lookup, null for an unknown key. */
  function GetProvider(c: Config, key: string): (r: Option<Provider>)
    ensures r.Some? <==> key in c.providers
    ensures r.Some? ==> r.value == c.providers[key]
  {
    Lookup(c.providers, Some(key))
  }

  /** `getModel`: the model under `key`, otherwise the default model (null when that is missing too). */
  function GetModel(c: Config, key: string): (r: Option<Model>)
    ensures key in c.models ==> r == Some(c.models[key])
    ensures key !in c.models ==> r == Lookup(c.models, c.defaultModel)
  {
    var model := Lookup(c.models, Some(key));
    if model.None? then Lookup(c.models, c.defaultModel) else model
  }

  /** What Java's string concatenation prints for a possibly null string. */
  function Shown(s: Option<string>): string
  {
    if s.None? then "null" else s.value
  }

  /** The message of the exception `validate` throws. */
  function ValidationMessage(defaultModel: Option<string>): string
  {
    "Default model '" + Shown(defaultModel) + "' not defined in ai.models"
  }

  /** `validate`: fails exactly when the default model is not set or is not a key of `models`. */
  function Validate(c: Config): (r: Validation)
    ensures r == Validated <==> c.defaultModel.Some? && c.defaultModel.value in c.models
    ensures r.Invalid? ==> r.message == ValidationMessage(c.defaultModel)
  {
    if c.defaultModel.None? || c.defaultModel.value !in c.models then Invalid(ValidationMessage(c.defaultModel))
    else Validated
  }

  /** Once `validate` has passed, `getModel` returns a model for every key. */
  lemma ValidatedModelsFound(c: Config, key: string)
    requires Validate(c) == Validated
    ensures GetModel(c, key).Some?
    ensures key !in c.models ==> GetModel(c, key) == Some(c.models[c.defaultModel.value])
  {
  }

  /** Whatever the key, a model `getModel` returns is one of the configured models. */
  lemma ModelIsConfigured(c: Config, key: string)
    ensures GetModel(c, key).Some? ==> GetModel(c, key).value in c.models.Values
  {
  }

  /** An unknown key gives the same answer as asking for the default model by name. */
  lemma UnknownKeyIsDefault(c: Config, key: string)
    requires key !in c.models && c.defaultModel.Some?
    ensures GetModel(c, key) == GetModel(c, c.defaultModel.value)
  {
  }

  /** Without a valid default, an unknown key finds nothing. */
  lemma InvalidUnknownKeyIsNull(c: Config, key: string)
    requires Validate(c).Invalid? && key !in c.models
    ensures GetModel(c, key).None?
  {
  }

  /** The exception message names the default model, or "null" when it is not set. */
  lemma ValidationMessageNames(c: Config)
    requires Validate(c).Invalid?
    ensures var m := Validate(c).message;
            m[..15] == "Default model '" && m[15..15 + |Shown(c.defaultModel)|] == Shown(c.defaultModel)
  {
  }
}
