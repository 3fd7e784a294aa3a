/** The pixel buffer `Image<Pixel>` of src/image.rs and src/main.rs: a fixed
    width and height over a row-major vector of cells. The two source copies
    differ only in their neighbour enumeration, recorded here as `topology`. */
module Images {
  import opened Grid

  class Image<Pixel> {
    const width: nat
    const height: nat
    const topology: Topology
    /** The cells, row by row: cell `(x, y)` is `data[y * width + x]`. */
    const data: array<Pixel>

    predicate Valid()
    {
      data.Length == width * height
    }

    /** `Image::new(pix, width, height)`: `width * height` cells, all `pix`. */
    constructor (pix: Pixel, w: nat, h: nat, t: Topology)
      ensures Valid() && fresh(data)
      ensures width == w && height == h && topology == t
      ensures forall i :: 0 <= i < data.Length ==> data[i] == pix
    {
      width, height, topology := w, h, t;
      data := new Pixel[w * h](_ => pix);
    }

    /** The pixel at `(x, y)`; the caller keeps the coordinates in bounds. */
    function Get(x: int, y: int): (p: Pixel)
      reads data
      requires Valid() && InBounds(width, height, (x, y))
      ensures 0 <= y * width + x < data.Length && p == data[y * width + x]
    {
      data[Index(width, height, (x, y))]
    }

    /** Overwrites the pixel at `(x, y)`. Reading it back gives `pix`; every
        other cell, and the dimensions, are left as they were. */
    method Set(x: int, y: int, pix: Pixel)
      requires Valid() && InBounds(width, height, (x, y))
      modifies data
      ensures data[..] == old(data[..])[Index(width, height, (x, y)) := pix]
      ensures Get(x, y) == pix
      ensures forall c :: InBounds(width, height, c) && c != (x, y) ==>
                Get(c.0, c.1) == old(Get(c.0, c.1))
    {
      data[Index(width, height, (x, y))] := pix;
      forall c | InBounds(width, height, c) && c != (x, y)
        ensures Get(c.0, c.1) == old(Get(c.0, c.1))
      {
        IndexInjective(width, height, c, (x, y));
      }
    }

    /** `for_each_neighbor`, as the sequence of coordinates it visits. */
    function Neighbors(x: int, y: int): (ns: seq<Cell>)
      ensures |ns| <= 8
      ensures InBounds(width, height, (x, y)) ==>
                forall i :: 0 <= i < |ns| ==> InBounds(width, height, ns[i]) && Adjacent(topology, (x, y), ns[i])
    {
      if InBounds(width, height, (x, y)) then
        NeighborsExact(topology, width, height, (x, y));
        Grid.Neighbors(topology, width, height, (x, y))
      else
        Grid.Neighbors(topology, width, height, (x, y))
    }
  }
}
