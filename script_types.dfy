/**
 * Pre-request and post-response scripts: the code, when it runs, and
 * whether it runs at all.
 */
module ScriptTypes {
  import opened Wrappers
  import Text

  datatype ScriptType = PreRequest | PostResponse

  datatype Script = Script(scriptType: ScriptType, code: string, name: Option<string>, enabled: bool)

  /** `Script::new`: enabled and unnamed. */
  function New(t: ScriptType, code: string): (s: Script)
    ensures s.scriptType == t && s.code == code
    ensures s.enabled && s.name.None?
  {
    Script(t, code, None, true)
  }

  /** `Script::pre_request` */
  function PreRequestScript(code: string): (s: Script)
    ensures s.scriptType == PreRequest && s.code == code
    ensures s.enabled && s.name.None?
  {
    New(PreRequest, code)
  }

  /** `Script::post_response` */
  function PostResponseScript(code: string): (s: Script)
    ensures s.scriptType == PostResponse && s.code == code
    ensures s.enabled && s.name.None?
  {
    New(PostResponse, code)
  }

  /** `with_name`: sets the name and keeps every other field. */
  function WithName(s: Script, name: string): (r: Script)
    ensures r.name == Some(name)
    ensures r.scriptType == s.scriptType && r.code == s.code && r.enabled == s.enabled
  {
    s.(name := Some(name))
  }

  /** `with_enabled`: sets the flag and keeps every other field. */
  function WithEnabled(s: Script, enabled: bool): (r: Script)
    ensures r.enabled == enabled
    ensures r.scriptType == s.scriptType && r.code == s.code && r.name == s.name
  {
    s.(enabled := enabled)
  }

  /** `should_execute`: the script is enabled and its code is not blank. */
  function ShouldExecute(s: Script): (b: bool)
    ensures b <==> s.enabled && exists i :: 0 <= i < |s.code| && !Text.IsWhitespace(s.code[i])
  {
    s.enabled && Text.Trim(s.code) != ""
  }
}
