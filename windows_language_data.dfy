/** One row of the language table: a language's name and codes, and its
    `;`-separated line form. */
module WindowsLanguageData {
  import opened Wrappers
  import opened Text
  import opened Numbers

  /** A C# `uint`. */
  type UInt32 = x: int | IsUInt32(x)

  /** The language record: four nullable strings and two `uint`s. */
  datatype Language = Language(
    name: Option<string>,
    code: Option<string>,
    lcidCode: Option<string>,
    windowsCodeDecimal: UInt32,
    windowsCodeHex: Option<string>,
    codePage: UInt32)
  {
    /** `ToString()`: the name. */
    function ToString(): Option<string>
    {
      name
    }

    /** `ToCsv()`: the interpolation of the six fields with `;` between them. */
    function ToCsv(): string
    {
      Join(Pieces(this), ';')
    }

    /** The text fields, none of which holds a `;`. */
    predicate SeparatorFree()
    {
      ';' !in Interpolated(name) && ';' !in Interpolated(code) && ';' !in Interpolated(lcidCode)
      && ';' !in Interpolated(windowsCodeHex)
    }

    /** The record with every null text field made empty. */
    function Normalized(): (l: Language)
      ensures l.name.Some? && l.code.Some? && l.lcidCode.Some? && l.windowsCodeHex.Some?
    {
      Language(Some(Interpolated(name)), Some(Interpolated(code)), Some(Interpolated(lcidCode)),
               windowsCodeDecimal, Some(Interpolated(windowsCodeHex)), codePage)
    }
  }

  /** How string interpolation renders a nullable string: null as empty. */
  function Interpolated(v: Option<string>): string
  {
    if v.Some? then v.value else ""
  }

  /** The six pieces of a line, in the order `ToCsv` writes them. */
  function Pieces(l: Language): (ps: seq<string>)
    ensures |ps| == 6
  {
    [Interpolated(l.name), Interpolated(l.code), Interpolated(l.lcidCode),
     NatToString(l.windowsCodeDecimal), Interpolated(l.windowsCodeHex), NatToString(l.codePage)]
  }

  /** A decimal rendering holds no `;`. */
  lemma DecimalHasNoSeparator(n: nat)
    ensures ';' !in NatToString(n)
  {
  }

  /** When no text field holds a `;`, the line splits back into its six pieces. */
  lemma ToCsvSplits(l: Language)
    requires l.SeparatorFree()
    ensures Split(l.ToCsv(), ';') == Pieces(l)
  {
    DecimalHasNoSeparator(l.windowsCodeDecimal);
    DecimalHasNoSeparator(l.codePage);
    SplitJoin(Pieces(l), ';');
  }

  /** Every line holds at least the five separators `ToCsv` writes, so it
      always splits into at least six parts. */
  lemma ToCsvSeparators(l: Language)
    ensures Count(l.ToCsv(), ';') >= 5
    ensures |Split(l.ToCsv(), ';')| >= 6
  {
    CountJoin(Pieces(l), ';');
    SplitCount(l.ToCsv(), ';');
  }
}
