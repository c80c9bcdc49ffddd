/** The optional values the JavaScript and TypeScript sources express with
    `undefined`/`null`, as a failure-compatible datatype usable with `:-`. */
module Options {

  datatype Option<+T> = None | Some(value: T) {

    predicate IsFailure() {
      None?
    }

    function PropagateFailure<U>(): Option<U>
      requires None?
    {
      None
    }

    function Extract(): T
      requires Some?
    {
      value
    }
  }

  /** JavaScript truthiness of an optional string: present and non-empty. */
  predicate Truthy(o: Option<string>) {
    o.Some? && o.value != ""
  }

  /** JavaScript `a || b` on optional strings: `a` when truthy, else `b` (which may itself be falsy). */
  function Or(a: Option<string>, b: Option<string>): (r: Option<string>)
    ensures Truthy(r) <==> Truthy(a) || Truthy(b)
    ensures Truthy(a) ==> r == a
  {
    if Truthy(a) then a else b
  }

  /** JavaScript `x || null` / `x || undefined`: every falsy value becomes absent. */
  function Nullify(o: Option<string>): (r: Option<string>)
    ensures r.Some? <==> Truthy(o)
    ensures r.Some? ==> r == o && r.value != ""
  {
    if Truthy(o) then o else None
  }

  /** JavaScript `x || ''`. */
  function OrEmpty(o: Option<string>): (r: string)
    ensures r == "" <==> !Truthy(o)
    ensures Truthy(o) ==> r == o.value
  {
    if Truthy(o) then o.value else ""
  }
}
