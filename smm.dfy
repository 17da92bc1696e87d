/** The slice of the OMG Structured Metrics Meta-model (SMM) and of the
    MoDisco Java model that the energy call graph is built from.

    EMF objects live in an arena: a `seq<Measurement>` whose positions are
    object identities.  A relationship object is never changed after it is
    linked, so it is kept as a value and may appear in several lists, as the
    same Java object does. */
module Smm {

  datatype Option<T> = None | Some(value: T)

  /** The Java exceptions the modelled code can raise. */
  datatype JavaException =
    | ArrayIndexOutOfBounds   // fields[0] of an empty split
    | EmptyStack              // Stack.pop on an empty methodStack
    | NoEnergyMeasurement     // getEnergy's orElseThrow

  datatype Result<T> = Ok(value: T) | Err(exception: JavaException)

  /** A method or constructor declaration of the analysed program. */
  datatype MethodDeclaration = MethodDeclaration(
    isConstructor: bool,
    name: string,
    owner: string,
    parameters: seq<string>)

  /** The objects met while walking the Java model: only method
      declarations matter to the index. */
  datatype JavaElement = Declaration(decl: MethodDeclaration) | OtherElement

  /** CollectiveMeasurement (one per invocation) or DirectMeasurement
      (its "energy" and "duration" children). */
  datatype Kind = Collective | Direct

  /** A BaseNMeasurementRelationship: `name` may be unset (null) in EMF. */
  datatype Relationship = Relationship(name: Option<string>, from: nat, to: nat)

  /** A DimensionalMeasurement with the three relationship lists SMM gives it:
      `rels` is getMeasurementRelationships(), `callsOut` is
      getBaseMeasurementTo() and `callsIn` is getBaseMeasurementFrom(). */
  datatype Measurement = Measurement(
    kind: Kind,
    name: string,
    value: real,
    measurand: Option<MethodDeclaration>,
    rels: seq<Relationship>,
    callsOut: seq<Relationship>,
    callsIn: seq<Relationship>)

  /** An ObservedMeasure lists the measurements it holds by identity. */
  datatype ObservedMeasure = ObservedMeasure(measurements: seq<nat>)

  const CallName: string := "call"
  const EnergyName: string := "energy"
  const DurationName: string := "duration"
  const ConstructorName: string := "<init>"

  /** A fresh DirectMeasurement with the given name; EMF starts a double
      attribute at 0.0 and leaves the measurand unset. */
  function NewDirect(name: string): Measurement
  {
    Measurement(Direct, name, 0.0, None, [], [], [])
  }

  /** Every relationship and every outgoing call points at an object of the
      arena. */
  ghost predicate Closed(store: seq<Measurement>)
  {
    && (forall k, r :: 0 <= k < |store| && r in store[k].rels ==> r.to < |store|)
    && (forall k, r :: 0 <= k < |store| && r in store[k].callsOut ==> r.to < |store|)
  }

  /** Every call edge goes from an older object to a younger one. */
  ghost predicate CallsForward(store: seq<Measurement>)
  {
    forall k, r :: 0 <= k < |store| && r in store[k].callsOut ==> k < r.to < |store|
  }
}
