/** Line addresses and their evaluation against a buffer's current line and line count. */
module Addresses {
  import opened Outcomes

  datatype Address =
    | Absolute(line: nat)
    | Current
    | Last
    | Relative(forward: bool, distance: nat)
    | Range(first: Address, last: Address)

  /** An inclusive range of lines, counted from 1. */
  datatype LineRange = LineRange(first: nat, last: nat)

  function EvaluateSingle(address: Address, current: nat, count: nat): Result<nat> {
    var line :- match address
      case Absolute(line) => Ok(line)
      case Current => Ok(current)
      case Last => Ok(count)
      case Relative(true, distance) => Ok(current + distance)
      case Relative(false, distance) => if distance >= current then Fail else Ok(current - distance)
      case Range(_, _) => Fail;
    if 1 <= line <= count then Ok(line) else Fail
  }

  /** The lines an address selects; without an address, the current line. Nothing can be addressed
    in an empty buffer. */
  function Evaluate(address: Option<Address>, current: nat, count: nat): (r: Result<LineRange>)
    ensures r.Ok? ==> 1 <= r.value.first <= r.value.last <= count
  {
    if count == 0 then Fail
    else match address
      case None => if 1 <= current <= count then Ok(LineRange(current, current)) else Fail
      case Some(Range(first, last)) =>
        var from :- EvaluateSingle(first, current, count);
        var to :- EvaluateSingle(last, current, count);
        if from > to then Fail else Ok(LineRange(from, to))
      case Some(single) =>
        var line :- EvaluateSingle(single, current, count);
        Ok(LineRange(line, line))
  }

  /** Where `A` inserts: after the addressed line, at the end by default, or before everything for 0. */
  function AppendPosition(address: Option<Address>, current: nat, count: nat): (r: Result<nat>)
    ensures r.Ok? ==> r.value <= count
  {
    match address
    case None => Ok(count)
    case Some(Range(_, _)) => Fail
    case Some(Absolute(0)) => Ok(0)
    case Some(_) =>
      var range :- Evaluate(address, current, count);
      Ok(range.first)
  }

  /** Where `I` inserts: after the line before the addressed one. With no current line there is no such place. */
  function InsertPosition(address: Option<Address>, current: nat, count: nat): (r: Result<nat>)
    requires current <= count
    ensures r.Ok? ==> r.value <= count
  {
    match address
    case None => if count == 0 then Ok(0) else if current == 0 then Fail else Ok(current - 1)
    case Some(Range(_, _)) => Fail
    case Some(Absolute(0)) => Ok(0)
    case Some(_) =>
      var range :- Evaluate(address, current, count);
      Ok(range.first - 1)
  }

  /** The line after which `T` copies, or 0. */
  function TransferDestination(destination: Option<Address>, current: nat, count: nat): (r: Result<nat>)
    ensures r.Ok? ==> r.value <= count
  {
    match destination
    case None => Fail
    case Some(Range(_, _)) => Fail
    case Some(Absolute(0)) => Ok(0)
    case Some(_) =>
      var range :- Evaluate(destination, current, count);
      Ok(range.first)
  }

  /** The line after which an addressed `R` inserts: `$` also works in an empty buffer. */
  function ReadPosition(address: Address, current: nat, count: nat): (r: Result<nat>)
    ensures r.Ok? ==> r.value <= count
  {
    if count == 0 then
      if address.Last? then Ok(0) else Fail
    else
      var range :- Evaluate(Some(address), current, count);
      if range.first == range.last then Ok(range.first) else Fail
  }
}
