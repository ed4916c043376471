/** A member of the roster: a mutable name that is also its identifier. */
module Members {
  import opened Wrappers

  /** Ruby's `to_s` on a string or nil: nil becomes the empty string. */
  function ToS(s: Option<string>): (r: string)
    ensures s.None? ==> r == []
    ensures s.Some? ==> r == s.value
  {
    s.GetOr([])
  }

  class Member {
    /** `attr_accessor :name`. */
    var name: string

    /** `Member.new(name = nil)`: the argument normalised with `to_s`; `None` stands for nil or no argument. */
    constructor (name: Option<string>)
      ensures this.name == ToS(name)
      ensures name.None? ==> this.name == []
      ensures name.Some? ==> this.name == name.value
    {
      this.name := ToS(name);
    }

    /** `id`: the identifier is the name itself. */
    function Id(): (r: string)
      reads this
      ensures r == name
    {
      name
    }

    /** `name=`: a new name is a new identifier, and nothing else changes. */
    method SetName(n: string)
      modifies this
      ensures name == n && Id() == n
    {
      name := n;
    }
  }
}
