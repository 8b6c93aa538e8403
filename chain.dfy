/**
 * A request chain: named, ordered steps and the configuration that says
 * how often to run them and when to stop.
 */
module Chains {
  import opened Wrappers
  import Steps

  datatype ChainConfig = ChainConfig(
    stopOnFailure: bool,
    delayMs: Option<nat>,
    maxDurationMs: Option<nat>,
    iterations: nat)

  /** `ChainConfig::new` (and `default`): stop on failure, one iteration, no delay, no time limit. */
  function DefaultConfig(): (c: ChainConfig)
    ensures c.stopOnFailure && c.iterations == 1 && c.delayMs.None? && c.maxDurationMs.None?
  {
    ChainConfig(true, None, None, 1)
  }

  /** `with_stop_on_failure` */
  function WithStopOnFailure(c: ChainConfig, stop: bool): (r: ChainConfig)
    ensures r.stopOnFailure == stop && r.(stopOnFailure := c.stopOnFailure) == c
  {
    c.(stopOnFailure := stop)
  }

  /** `with_delay` */
  function WithDelay(c: ChainConfig, ms: nat): (r: ChainConfig)
    ensures r.delayMs == Some(ms) && r.(delayMs := c.delayMs) == c
  {
    c.(delayMs := Some(ms))
  }

  /** `with_max_duration` */
  function WithMaxDuration(c: ChainConfig, ms: nat): (r: ChainConfig)
    ensures r.maxDurationMs == Some(ms) && r.(maxDurationMs := c.maxDurationMs) == c
  {
    c.(maxDurationMs := Some(ms))
  }

  /** `with_iterations`: any count, zero included. */
  function WithIterations(c: ChainConfig, n: nat): (r: ChainConfig)
    ensures r.iterations == n && r.(iterations := c.iterations) == c
  {
    c.(iterations := n)
  }

  datatype RequestChain = RequestChain(
    name: string,
    description: Option<string>,
    steps: seq<Steps.WorkflowStep>,
    config: ChainConfig)

  /** `RequestChain::new`: no steps, no description, the default configuration. */
  function New(name: string): (c: RequestChain)
    ensures c.name == name && c.steps == [] && c.description.None? && c.config == DefaultConfig()
  {
    RequestChain(name, None, [], DefaultConfig())
  }

  /** `with_description` */
  function WithDescription(c: RequestChain, d: string): (r: RequestChain)
    ensures r.description == Some(d) && r.(description := c.description) == c
  {
    c.(description := Some(d))
  }

  /** `add_step`: one more step at the end; the earlier steps stay, in order. */
  function AddStep(c: RequestChain, s: Steps.WorkflowStep): (r: RequestChain)
    ensures StepCount(r) == StepCount(c) + 1
    ensures r.steps[..|c.steps|] == c.steps && r.steps[|c.steps|] == s
    ensures r.(steps := c.steps) == c
  {
    var steps := c.steps + [s];
    assert steps[..|c.steps|] == c.steps;
    c.(steps := steps)
  }

  /** `with_config` */
  function WithConfig(c: RequestChain, config: ChainConfig): (r: RequestChain)
    ensures r.config == config && r.(config := c.config) == c
  {
    c.(config := config)
  }

  /** `step_count` */
  function StepCount(c: RequestChain): nat {
    |c.steps|
  }
}
