/**
 The hand-off between market simulation and valuation: the schema that turns
 risk-factor names into tensor indices, and the immutable envelope pairing that
 schema with the simulated state tensor and the time step.
 */
module Environment {
  import opened Wrappers

  /** Risk-factor name to index along the tensor's factor axis. */
  datatype RiskFactorSchema = RiskFactorSchema(factorIndices: map<string, int>)

  /** A failed lookup, carrying the name asked for and the names the schema knows. */
  datatype LookupError = FactorNotPresent(factorName: string, availableFactors: set<string>)

  /** `schema.get_index(name)`; being a function of an immutable value it leaves the schema as it was. */
  function GetIndex(schema: RiskFactorSchema, factorName: string): (r: Result<int, LookupError>)
    ensures r.Success? <==> factorName in schema.factorIndices
    ensures r.Success? ==> r.value == schema.factorIndices[factorName]
    ensures r.Failure? ==> r.error.factorName == factorName
    ensures r.Failure? ==> r.error.availableFactors == schema.factorIndices.Keys
  {
    if factorName in schema.factorIndices then Success(schema.factorIndices[factorName])
    else Failure(FactorNotPresent(factorName, schema.factorIndices.Keys))
  }

  /** State values indexed by path, time step and risk factor. */
  type Tensor = seq<seq<seq<real>>>

  /**
   The immutable envelope. Its schema and tensor are values with no update
   operation, so they are read-only from construction on and share no state
   with anything the caller keeps.
   */
  datatype MarketEnvironment = MarketEnvironment(schema: RiskFactorSchema, stateTensor: Tensor, dt: real)

  datatype WriteError = AssignmentDestinationReadOnly

  /**
   `env.state_tensor[path, step, factor] = value`: always refused, and the
   environment afterwards exposes the same schema, tensor contents and dt.
   */
  method AssignElement(env: MarketEnvironment, path: nat, step: nat, factor: nat, value: real)
    returns (outcome: Outcome<WriteError>, after: MarketEnvironment)
    ensures outcome == Fail(AssignmentDestinationReadOnly)
    ensures after.schema == env.schema && after.dt == env.dt
    ensures after.stateTensor == env.stateTensor
  {
    outcome := Fail(AssignmentDestinationReadOnly);
    after := env;
  }
}
