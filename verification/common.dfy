/** Value types shared by every part of the exporter: optional values, the Python
    exceptions the drafts can raise on the modelled paths, and object transforms. */
module Common {

  /** Python's `None` or a present value. */
  datatype Option<+T> = None | Some(value: T)

  /** The exceptions a modelled operation can end with. */
  datatype Error =
    | KeyError(key: string)        // a dict lookup or `pop` on an absent key
    | IndexError                   // `split("/")[1]` on a name without "/"
    | TypeError                    // subscripting an entry that is `None`

  datatype Result<+T> = Ok(value: T) | Err(error: Error) {
    predicate IsFailure() { Err? }

    function PropagateFailure<U>(): Result<U>
      requires Err?
    {
      Err(error)
    }

    function Extract(): T
      requires Ok?
    {
      value
    }
  }

  /** An x/y/z triple. Its components are the decimal strings the host produces from
      floats; the model never looks inside them. */
  datatype Triple = Triple(x: string, y: string, z: string)

  /** World-space placement of one object: position, Euler rotation and scale. */
  datatype Transform = Transform(position: Triple, rotation: Triple, scale: Triple)

  /** The closed nine-field attribute schema every exported object carries, in the
      order the drafts write it (`objType` is the `type` attribute). `time` is an input:
      the clock is not modelled. */
  datatype Attributes = Attributes(
    objType: string, category: string, name: string, alias: string, id: string,
    remark: string, model: string, time: string, noted: string)

  /** Python's `str()` of an optional string: `None` is rendered as the word "None". */
  function Str(o: Option<string>): (r: string)
    ensures o.Some? ==> r == o.value
    ensures o.None? ==> r == "None"
  {
    match o
    case None => "None"
    case Some(s) => s
  }

  /** Python truthiness of an optional string: `None` and "" are false. */
  predicate Truthy(o: Option<string>)
  {
    o.Some? && o.value != ""
  }

  /** The last element of a non-empty sequence (Python's `xs[-1]`). */
  function Last<T>(xs: seq<T>): T
    requires |xs| > 0
  {
    xs[|xs| - 1]
  }
}
