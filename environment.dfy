/**
 * Environments: named sets of variables, each of which can be secret and
 * can be switched off, and the manager that holds them by id and knows
 * which one is active. The active environment's enabled variables are what
 * `{{NAME}}` placeholders resolve against.
 *
 * Ids are chosen by the caller (they are random UUIDs in the program), and
 * the timestamps an environment keeps are not part of this model.
 */
module Environments {
  import opened Wrappers
  import Substitution

  type EnvId = nat

  datatype EnvironmentVariable = EnvironmentVariable(
    value: string,
    isSecret: bool,
    varType: Option<string>,
    description: Option<string>,
    enabled: bool)

  /** The entry every setter stores: enabled, with no type. */
  function Entry(value: string, isSecret: bool, description: Option<string>): (v: EnvironmentVariable)
    ensures v.value == value && v.isSecret == isSecret && v.description == description
    ensures v.enabled && v.varType.None?
  {
    EnvironmentVariable(value, isSecret, None, description, true)
  }

  /** The values of the enabled entries of a variable map. */
  function Enabled(vars: map<string, EnvironmentVariable>): (r: map<string, string>)
    ensures forall k :: k in r <==> k in vars && vars[k].enabled
    ensures forall k :: k in r ==> r[k] == vars[k].value
  {
    map k | k in vars && vars[k].enabled :: vars[k].value
  }

  class Environment {
    const id: EnvId
    var name: string
    var description: Option<string>
    var variables: map<string, EnvironmentVariable>
    var isActive: bool

    /** `Environment::new`: no description, no variables, not active. */
    constructor (id: EnvId, name: string)
      ensures this.id == id && this.name == name && description.None? && variables == map[] && !isActive
    {
      this.id := id;
      this.name := name;
      description := None;
      variables := map[];
      isActive := false;
    }

    /** `with_description` */
    method WithDescription(d: string)
      modifies this
      ensures description == Some(d)
      ensures name == old(name) && variables == old(variables) && isActive == old(isActive)
    {
      description := Some(d);
    }

    /** `set_variable`: an enabled, non-secret entry, replacing any earlier one. */
    method SetVariable(key: string, value: string)
      modifies this
      ensures variables == old(variables)[key := Entry(value, false, None)]
      ensures name == old(name) && description == old(description) && isActive == old(isActive)
    {
      variables := variables[key := Entry(value, false, None)];
    }

    /** `set_secret`: an enabled, secret entry, replacing any earlier one. */
    method SetSecret(key: string, value: string)
      modifies this
      ensures variables == old(variables)[key := Entry(value, true, None)]
      ensures name == old(name) && description == old(description) && isActive == old(isActive)
    {
      variables := variables[key := Entry(value, true, None)];
    }

    /** `set_variable_full`: an enabled entry with the given secrecy and description. */
    method SetVariableFull(key: string, value: string, isSecret: bool, desc: Option<string>)
      modifies this
      ensures variables == old(variables)[key := Entry(value, isSecret, desc)]
      ensures name == old(name) && description == old(description) && isActive == old(isActive)
    {
      variables := variables[key := Entry(value, isSecret, desc)];
    }

    /** `get_variable`: the value of a present, enabled entry. */
    function GetVariable(key: string): (r: Option<string>)
      reads this
      ensures r.Some? <==> key in variables && variables[key].enabled
      ensures r.Some? ==> r.value == variables[key].value
    {
      if key in variables && variables[key].enabled then Some(variables[key].value) else None
    }

    /** `remove_variable`: whether the key was there; it is not afterwards, and no other entry changes. */
    method RemoveVariable(key: string) returns (r: bool)
      modifies this
      ensures r <==> key in old(variables)
      ensures variables == old(variables) - {key}
      ensures name == old(name) && description == old(description) && isActive == old(isActive)
    {
      r := key in variables;
      variables := variables - {key};
    }

    /** `set_variable_enabled`: a missing key changes nothing; otherwise only that entry's flag. */
    method SetVariableEnabled(key: string, enabled: bool) returns (r: bool)
      modifies this
      ensures r <==> key in old(variables)
      ensures !r ==> variables == old(variables)
      ensures r ==> variables == old(variables)[key := old(variables)[key].(enabled := enabled)]
      ensures name == old(name) && description == old(description) && isActive == old(isActive)
    {
      if key in variables {
        variables := variables[key := variables[key].(enabled := enabled)];
        r := true;
      } else {
        r := false;
      }
    }

    /** `enabled_variables`: exactly the enabled entries, by value. */
    function EnabledVariables(): (r: map<string, string>)
      reads this
      ensures forall k :: k in r <==> GetVariable(k).Some?
      ensures forall k :: k in r ==> Some(r[k]) == GetVariable(k)
    {
      Enabled(variables)
    }

    /** `activate` */
    method Activate()
      modifies this
      ensures isActive
      ensures name == old(name) && description == old(description) && variables == old(variables)
    {
      isActive := true;
    }

    /** `deactivate` */
    method Deactivate()
      modifies this
      ensures !isActive
      ensures name == old(name) && description == old(description) && variables == old(variables)
    {
      isActive := false;
    }
  }

  /** `EnvironmentManager`: the environments by id, and the id of the active one. */
  class EnvironmentManager {
    var environments: map<EnvId, Environment>
    var activeEnvId: Option<EnvId>

    /**
     * Every environment is stored under its own id (so no two ids share an
     * object), and the active id, if any, names a stored environment.
     */
    ghost predicate Valid()
      reads this, environments.Values
    {
      (forall i :: i in environments ==> environments[i].id == i)
      && (activeEnvId.Some? ==> activeEnvId.value in environments)
    }

    /** `EnvironmentManager::new`: no environments, none active. */
    constructor ()
      ensures environments == map[] && activeEnvId.None? && Valid()
    {
      environments := map[];
      activeEnvId := None;
    }

    /** `add_environment`: stored under its id, replacing one with the same id. */
    method AddEnvironment(env: Environment)
      modifies this
      requires Valid()
      ensures environments == old(environments)[env.id := env]
      ensures activeEnvId == old(activeEnvId)
      ensures Valid()
    {
      environments := environments[env.id := env];
    }

    /** `remove_environment`: whether the id was there; it is not afterwards, and it is no longer active. */
    method RemoveEnvironment(id: EnvId) returns (r: bool)
      modifies this
      requires Valid()
      ensures r <==> id in old(environments)
      ensures environments == old(environments) - {id}
      ensures activeEnvId == (if old(activeEnvId) == Some(id) then None else old(activeEnvId))
      ensures Valid()
    {
      if activeEnvId == Some(id) {
        activeEnvId := None;
      }
      r := id in environments;
      environments := environments - {id};
    }

    /** `get_environment` */
    function GetEnvironment(id: EnvId): (r: Option<Environment>)
      reads this
      ensures r.Some? <==> id in environments
      ensures r.Some? ==> r.value == environments[id]
    {
      if id in environments then Some(environments[id]) else None
    }

    /** `get_environment_by_name`: some environment with that name, in the map's own order; none exactly when no name matches. */
    method GetEnvironmentByName(name: string) returns (r: Option<Environment>)
      ensures r.Some? ==> r.value in environments.Values && r.value.name == name
      ensures r.None? <==> forall i :: i in environments ==> environments[i].name != name
    {
      var todo := environments.Keys;
      while todo != {}
        invariant todo <= environments.Keys
        invariant forall i :: i in environments && i !in todo ==> environments[i].name != name
        decreases |todo|
      {
        var i :| i in todo;
        if environments[i].name == name {
          return Some(environments[i]);
        }
        todo := todo - {i};
      }
      r := None;
    }

    /**
     * `set_active`: an unknown id returns false and changes nothing;
     * otherwise the previously active environment is deactivated, the
     * target activated and recorded as active, and nothing else changes.
     */
    method SetActive(id: EnvId) returns (r: bool)
      modifies this, environments.Values
      requires Valid()
      ensures r <==> id in old(environments)
      ensures environments == old(environments)
      ensures activeEnvId == (if r then Some(id) else old(activeEnvId))
      ensures forall i :: i in environments ==>
        environments[i].isActive
          == (if r && i == id then true
              else if r && old(activeEnvId) == Some(i) then false
              else old(environments[i].isActive))
      ensures forall i :: i in environments ==>
        environments[i].variables == old(environments[i].variables) && environments[i].name == old(environments[i].name)
      ensures Valid()
    {
      if id !in environments {
        return false;
      }
      if activeEnvId.Some? && activeEnvId.value in environments {
        environments[activeEnvId.value].Deactivate();
      }
      environments[id].Activate();
      activeEnvId := Some(id);
      r := true;
    }

    /** `get_active_environment` */
    function GetActiveEnvironment(): (r: Option<Environment>)
      reads this
      ensures r.Some? <==> activeEnvId.Some? && activeEnvId.value in environments
      ensures r.Some? ==> r.value == environments[activeEnvId.value]
    {
      if activeEnvId.Some? && activeEnvId.value in environments then Some(environments[activeEnvId.value]) else None
    }

    /** `substitute`: the text as it is without an active environment, else resolved against its enabled variables only. */
    function Substitute(text: string): (r: string)
      reads this, environments.Values
      ensures GetActiveEnvironment().None? ==> r == text
      ensures GetActiveEnvironment().Some? ==>
        r == Substitution.Substitute(text, Enabled(GetActiveEnvironment().value.variables))
    {
      match GetActiveEnvironment()
      case None => text
      case Some(env) => Substitution.Substitute(text, env.EnabledVariables())
    }

    /** `substitute_with_env`: the same against a given environment; an unknown id leaves the text as it is. */
    function SubstituteWithEnv(text: string, id: EnvId): (r: string)
      reads this, environments.Values
      ensures id !in environments ==> r == text
      ensures id in environments ==> r == Substitution.Substitute(text, Enabled(environments[id].variables))
    {
      if id in environments then Substitution.Substitute(text, environments[id].EnabledVariables()) else text
    }

    /**
     * `validate`: with an active environment, whether every referenced name
     * is one of its enabled variables (else the missing ones); with none,
     * every referenced name is missing.
     */
    method Validate(text: string) returns (r: Result<(), seq<string>>)
      ensures GetActiveEnvironment().Some? ==>
        var vars := Enabled(GetActiveEnvironment().value.variables);
        (r.Ok? <==> forall n :: n in Substitution.FindVariables(text) ==> n in vars)
        && (r.Err? ==> r.error == Substitution.Missing(Substitution.FindVariables(text), vars))
      ensures GetActiveEnvironment().None? ==>
        (r.Ok? <==> Substitution.FindVariables(text) == [])
        && (r.Err? ==> r.error == Substitution.FindVariables(text))
    {
      var active := GetActiveEnvironment();
      if active.Some? {
        r := Substitution.Validate(text, active.value.EnabledVariables());
      } else {
        var found := Substitution.FindVariables(text);
        if found == [] {
          r := Ok(());
        } else {
          r := Err(found);
        }
      }
    }
  }

  /** `create_quick_env`: a new environment holding BASE_URL and API_VERSION = "v1". */
  method CreateQuickEnv(id: EnvId, name: string, baseUrl: string) returns (env: Environment)
    ensures fresh(env) && env.id == id && env.name == name && !env.isActive
    ensures env.variables == map["BASE_URL" := Entry(baseUrl, false, None), "API_VERSION" := Entry("v1", false, None)]
    ensures env.GetVariable("BASE_URL") == Some(baseUrl) && env.GetVariable("API_VERSION") == Some("v1")
  {
    env := new Environment(id, name);
    env.SetVariable("BASE_URL", baseUrl);
    env.SetVariable("API_VERSION", "v1");
  }
}
