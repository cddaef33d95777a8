/** Values shared by every component: nullable chain values, the per-call
    result of a batched read, and the chain ids the application knows. */
module Common {

  /** A chain value that may not have been read yet (`null`/`undefined`). */
  datatype Option<+T> = None | Some(value: T)

  /** An account or contract address, as the hex string the wallet returns. */
  type Address = string

  /** A decoded ABI value: an address, an unsigned integer or a string. */
  datatype Value = Addr(addr: Address) | Uint(n: nat) | Str(s: string)

  /** One entry of a batched read: each call succeeds or fails on its own. */
  datatype CallResult = Success(result: Value) | Failure

  /** Chain ids of the networks the application is configured for. */
  const MainnetId: nat := 1
  const BscId: nat := 56
  const BscTestnetId: nat := 97

  /** JavaScript truthiness of an optional string: present and non-empty. */
  predicate Truthy(a: Option<string>)
  {
    a.Some? && a.value != ""
  }

  /** The entry at `j` of a batch, where an index past the end reads as a
      failure, as `raw[j]?.status === 'success'` does. */
  function ResultAt(raw: seq<CallResult>, j: nat): (r: CallResult)
    ensures j >= |raw| ==> r == Failure
    ensures j < |raw| ==> r == raw[j]
  {
    if j < |raw| then raw[j] else Failure
  }

  /** An address result, or null when the call failed. */
  function AddressOrNull(r: CallResult): Option<Address>
  {
    match r
    case Success(Addr(a)) => Some(a)
    case _ => None
  }

  /** An integer result, or `dflt` when the call failed. */
  function UintOr(r: CallResult, dflt: nat): nat
  {
    match r
    case Success(Uint(n)) => n
    case _ => dflt
  }

  /** A string result, or `dflt` when the call failed. */
  function StrOr(r: CallResult, dflt: string): string
  {
    match r
    case Success(Str(s)) => s
    case _ => dflt
  }
}
