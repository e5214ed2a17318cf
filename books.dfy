/** The catalog record (class Libro) and the small value types shared by the other modules. */
module Books {

  datatype Option<+T> = None | Some(value: T)

  /** Java's 32-bit `int`, the type of the page count. */
  type Int32 = x: int | -0x8000_0000 <= x < 0x8000_0000

  /** One book of the catalog: codigo, nombre, autor, materia, numPaginas. */
  datatype Book = Book(code: string, title: string, author: string, subject: string, pages: Int32)

  /** Java's narrowing of an integral number to `int` (`Number.intValue` on a `Long`
      or `BigInteger`): keep the low 32 bits, read as two's complement. */
  function Wrap32(n: int): (r: Int32)
    ensures (r - n) % 0x1_0000_0000 == 0
    ensures -0x8000_0000 <= n < 0x8000_0000 ==> r == n
  {
    (n + 0x8000_0000) % 0x1_0000_0000 - 0x8000_0000
  }
}
