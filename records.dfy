/**
 * The product record (`Produto`) and the rule by which `ler_string` captures its name
 * from standard input.
 */
module Records {

  /** A C `int` on the platforms the program targets. */
  newtype Int32 = x: int | -0x8000_0000 <= x < 0x8000_0000

  /** The bit pattern of the C `float` price: the store only copies it, never computes with it. */
  datatype Price = Price(bits: bv32)

  /** One record: `nome` as the C string it holds, `codigo` and `preco`. */
  datatype Product = Product(name: string, code: Int32, price: Price)

  /** `sizeof(nome)`: 49 characters of payload and the terminating NUL. */
  const NAME_FIELD_SIZE: nat := 50

  /** A name the program can store: fits the field and holds no newline and no NUL. */
  predicate ValidName(s: string)
  {
    |s| < NAME_FIELD_SIZE && '\n' !in s && '\0' !in s
  }

  /**
   * The length of the longest prefix of `s` that holds none of `stops`, as C's `strcspn`
   * computes it (a NUL in `stops` stands for the end of the C string).
   */
  function SpanWithout(s: string, stops: set<char>): (n: nat)
    ensures n <= |s|
    ensures forall j :: 0 <= j < n ==> s[j] !in stops
    ensures n < |s| ==> s[n] in stops
  {
    if s == [] || s[0] in stops then 0 else 1 + SpanWithout(s[1..], stops)
  }

  /**
   * What a successful `fgets(buffer, size, stdin)` stores: the characters of `input` up to
   * and including the first newline, but never more than `size - 1` of them.
   */
  function FgetsLine(input: string, size: nat): (line: string)
    requires size >= 1
  {
    var k := SpanWithout(input, {'\n'});
    var upTo := if k < |input| then k + 1 else k;
    input[..if upTo < size - 1 then upTo else size - 1]
  }

  /**
   * The name `ler_string(prompt, buffer, size)` leaves in `buffer`: empty when `fgets`
   * returns NULL (end of input before any character, or a read error), otherwise what
   * `fgets` read, cut at the first newline (and, being a C string, at the first NUL).
   */
  function CaptureName(input: string, readFails: bool, size: nat): (name: string)
    requires size >= 1
    ensures |name| <= size - 1
    ensures name <= input
    ensures '\n' !in name && '\0' !in name
    ensures readFails || input == [] ==> name == ""
  {
    if readFails || input == [] then ""
    else
      var line := FgetsLine(input, size);
      line[..SpanWithout(line, {'\n', '\0'})]
  }

  /** Every name read into the 50-byte field is one the record can hold. */
  lemma CapturedNameFits(input: string, readFails: bool)
    ensures ValidName(CaptureName(input, readFails, NAME_FIELD_SIZE))
  {
  }

  /**
   * The capture stops early only for a reason: the field is full, the input is exhausted,
   * or the next input character is a newline or a NUL. With the ensures of CaptureName this
   * characterises the captured name completely.
   */
  lemma CaptureStopsOnlyWhenForced(input: string, size: nat)
    requires size >= 1
    ensures var name := CaptureName(input, false, size);
      |name| == size - 1 || |name| == |input| || input[|name|] == '\n' || input[|name|] == '\0'
  {
  }

  /** A line that fits the field is captured whole, without its newline. */
  lemma ShortLineCapturedWhole(s: string, rest: string, size: nat)
    requires size >= 1 && |s| <= size - 1
    requires '\n' !in s && '\0' !in s
    ensures CaptureName(s + "\n" + rest, false, size) == s
  {
    var input := s + "\n" + rest;
    var name := CaptureName(input, false, size);
    CaptureStopsOnlyWhenForced(input, size);
    assert input[|s|] == '\n';
    assert name == input[..|s|] == s;
  }

  /** A longer line is truncated to the first `size - 1` characters. */
  lemma LongLineTruncated(input: string, size: nat)
    requires size >= 1 && |input| >= size - 1
    requires '\n' !in input[..size - 1] && '\0' !in input[..size - 1]
    ensures CaptureName(input, false, size) == input[..size - 1]
  {
  }
}
