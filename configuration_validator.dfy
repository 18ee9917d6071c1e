/** Validation of the adapter's connection settings
    (lib/qyu/store/redis/configuration_validator.rb, and `valid_config?` in
    lib/qyu/store/redis/adapter.rb lines 10-12).

    A configuration is usable when it gives a `url`, or else both a `host` and a `port`. The
    validator collects one message per missing attribute. */
module ConfigurationValidator {

  /** A configuration value as Ruby sees it; an absent key reads as nil. */
  datatype Setting = Nil | Bool(b: bool) | Text(s: string) | Number(n: int)

  /** A configuration hash, keyed by the name of each symbol key. */
  type Config = map<string, Setting>

  /** `REQUIRED_ATTRIBUTES` */
  const RequiredAttributes: seq<string> := ["host", "port"]

  /** `config[name]` */
  function Lookup(config: Config, name: string): Setting {
    if name in config then config[name] else Nil
  }

  /** Ruby truthiness: everything but nil and false. */
  predicate Truthy(v: Setting) {
    !(v.Nil? || v == Bool(false))
  }

  function Message(attribute: string): string {
    attribute + " must be present."
  }

  /** The messages for the attributes of `attributes` that are nil, in order. */
  function MissingFor(config: Config, attributes: seq<string>): seq<string> {
    if attributes == [] then []
    else (if Lookup(config, attributes[0]).Nil? then [Message(attributes[0])] else [])
         + MissingFor(config, attributes[1..])
  }

  /** The messages one `validate` call appends. */
  function Messages(config: Config): seq<string> {
    if Truthy(Lookup(config, "url")) then [] else MissingFor(config, RequiredAttributes)
  }

  /** The condition the validator checks. */
  predicate Usable(config: Config) {
    Truthy(Lookup(config, "url")) || (!Lookup(config, "host").Nil? && !Lookup(config, "port").Nil?)
  }

  class Validator {
    const config: Config
    var errors: seq<string>

    constructor(config: Config)
      ensures this.config == config && errors == []
    {
      this.config := config;
      errors := [];
    }

    /** `validate`: appends a message for each required attribute that is nil, unless a truthy
        `url` is given. */
    method Validate()
      modifies this
      ensures errors == old(errors) + Messages(config)
    {
      if !Truthy(Lookup(config, "url")) {
        for i := 0 to |RequiredAttributes|
          invariant errors == old(errors) + MissingFor(config, RequiredAttributes[..i])
        {
          MissingForSnoc(config, RequiredAttributes, i);
          var attribute := RequiredAttributes[i];
          if Lookup(config, attribute).Nil? {
            errors := errors + [Message(attribute)];
          }
        }
        assert RequiredAttributes[..|RequiredAttributes|] == RequiredAttributes;
      }
    }

    /** `valid?`: validates, then reports whether no message has been collected so far. */
    method IsValid() returns (ok: bool)
      modifies this
      ensures errors == old(errors) + Messages(config)
      ensures ok <==> errors == []
    {
      Validate();
      ok := errors == [];
    }
  }

  /** `Adapter.valid_config?(config)`: a fresh validator's verdict, which is that the
      configuration gives a url, or a host and a port. */
  method ValidConfig(config: Config) returns (ok: bool)
    ensures ok <==> Usable(config)
  {
    var validator := new Validator(config);
    ok := validator.IsValid();
    MessagesEmptyIffUsable(config);
  }

  // ---------------------------------------------------------------- lemmas

  /** Checking one more attribute appends at most its message. */
  lemma {:induction false} MissingForSnoc(config: Config, attributes: seq<string>, i: nat)
    requires i < |attributes|
    ensures MissingFor(config, attributes[..i + 1])
              == MissingFor(config, attributes[..i])
                 + (if Lookup(config, attributes[i]).Nil? then [Message(attributes[i])] else [])
  {
    if i == 0 {
      assert attributes[..1][1..] == [];
    } else {
      var tail := attributes[1..];
      MissingForSnoc(config, tail, i - 1);
      assert attributes[..i + 1][1..] == tail[..i];
      assert attributes[..i][1..] == tail[..i - 1];
    }
  }

  /** The validator collects no message exactly when the configuration gives a url, or a host
      and a port. */
  lemma MessagesEmptyIffUsable(config: Config)
    ensures Messages(config) == [] <==> Usable(config)
  {
    if !Truthy(Lookup(config, "url")) {
      MessagesWithoutUrl(config);
    }
  }

  /** Without a url, the messages are those of the missing host and port, in that order. */
  lemma MessagesWithoutUrl(config: Config)
    requires !Truthy(Lookup(config, "url"))
    ensures Messages(config)
              == (if Lookup(config, "host").Nil? then ["host must be present."] else [])
                 + (if Lookup(config, "port").Nil? then ["port must be present."] else [])
  {
    var attributes := RequiredAttributes;
    assert attributes[0] == "host" && attributes[1..] == ["port"];
    assert ["port"][1..] == [];
    assert Message("host") == "host must be present.";
    assert Message("port") == "port must be present.";
    assert MissingFor(config, ["port"])
             == (if Lookup(config, "port").Nil? then [Message("port")] else []) + MissingFor(config, []);
  }

  /** The empty configuration is rejected with both messages. */
  lemma EmptyConfigRejected()
    ensures Messages(map[]) == ["host must be present.", "port must be present."]
    ensures !Usable(map[])
  {
    MessagesWithoutUrl(map[]);
  }

  /** Only `url`, `host` and `port` decide the outcome; `url` is read for truthiness, `host` and
      `port` only for being nil. */
  lemma OnlyConnectionSettingsMatter(c1: Config, c2: Config)
    requires Truthy(Lookup(c1, "url")) == Truthy(Lookup(c2, "url"))
    requires Lookup(c1, "host").Nil? == Lookup(c2, "host").Nil?
    requires Lookup(c1, "port").Nil? == Lookup(c2, "port").Nil?
    ensures Messages(c1) == Messages(c2)
  {
    if !Truthy(Lookup(c1, "url")) {
      MessagesWithoutUrl(c1);
      MessagesWithoutUrl(c2);
    }
  }
}
