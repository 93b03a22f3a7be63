/** Two-dimensional vectors of exact reals, standing in for the graphics
    library's Vector.  The node never shares one Vector object between two of
    its attributes (every assignment stores a freshly built vector), so a value
    type captures the in-place updates of single coordinates. */
module Vectors {

  datatype Vec = Vec(x: real, y: real) {

    function Plus(o: Vec): Vec {
      Vec(x + o.x, y + o.y)
    }

    function Minus(o: Vec): Vec {
      Vec(x - o.x, y - o.y)
    }

    function Scale(k: real): Vec {
      Vec(x * k, y * k)
    }
  }
}
