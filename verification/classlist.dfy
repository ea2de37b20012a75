/** An element's `classList`, as the set of its class names. */
module ClassList {

  type Classes = set<string>

  /** `classList.toggle(c)`: removes `c` when present, adds it otherwise. */
  function Toggle(cls: Classes, c: string): (r: Classes)
    ensures c in r <==> c !in cls
    ensures forall d :: d != c ==> (d in r <==> d in cls)
  {
    if c in cls then cls - {c} else cls + {c}
  }

  /** Toggling the same class twice leaves the class list as it was. */
  lemma ToggleTwice(cls: Classes, c: string)
    ensures Toggle(Toggle(cls, c), c) == cls
  {
  }
}
