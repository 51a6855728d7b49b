/** Setpoint messages and the conformity rules every message crossing the broker obeys. */
module Setpoints {
  import opened Common

  /** Asset classes and output points of the data model; the ones the code names are constructors. */
  datatype AssetClass = Battery | Pv | FlexibleLoad | OtherClass(name: string)

  datatype Field = ActivePower | ReactivePower | DerateFactor | OtherField(name: string)

  type Points = map<Field, real>

  /** The part of the data model conformity needs: its version and, per class, the output points. */
  datatype DataModel = DataModel(version: string, outputs: map<AssetClass, set<Field>>)

  /** A message; ts is None when its text is not a timestamp. */
  datatype Message = Message(
    version: string, site: string, ts: Option<real>, seqNo: int, assetClass: AssetClass, setpoints: Points)

  /** What arrives: possibly not even of the message's shape (missing keys, non-numeric values). */
  datatype Payload = Malformed | Payload(message: Message)

  predicate Conformant(m: Message, dm: DataModel) {
    && m.version == dm.version
    && m.seqNo >= 0
    && m.setpoints != map[]
    && m.assetClass in dm.outputs
    && forall k | k in m.setpoints :: k in dm.outputs[m.assetClass]
  }

  /** site/{site}/setpoints/{class} */
  datatype Topic = Topic(site: string, assetClass: AssetClass)
}
