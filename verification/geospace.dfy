/** `DistType` of synapse/models/geospace.py: a geographic distance, kept
    in millimetres. A string such as "10 km" is read as a number followed by
    a unit name, looked up without regard to case in a fixed table of
    multipliers; any other value is kept as it is. */
module GeoDistance {
  import opened Wrappers

  // ----------------------------------------------------------------- units

  const MM: nat := 1
  const CM: nat := 10
  const M: nat := 1000
  const KM: nat := 1000000

  /** The unit table: millimetres per unit, for the lower-case unit names. */
  function UnitTable(unit: string): (mult: Option<nat>)
  {
    if unit == "mm" then Some(MM)
    else if unit == "cm" then Some(CM)
    else if unit == "m" then Some(M)
    else if unit == "meters" then Some(M)
    else if unit == "km" then Some(KM)
    else None
  }

  /** The unit names the table knows. */
  const UnitNames: set<string> := {"mm", "cm", "m", "meters", "km"}

  /** Lower-casing of the ASCII letters; every other character is kept. */
  function LowerChar(ch: char): (r: char)
  {
    if 'A' <= ch <= 'Z' then (ch as int + 32) as char else ch
  }

  function UpperChar(ch: char): (r: char)
  {
    if 'a' <= ch <= 'z' then (ch as int - 32) as char else ch
  }

  function Lower(s: string): (r: string)
    ensures |r| == |s| && forall i :: 0 <= i < |s| ==> r[i] == LowerChar(s[i])
  {
    seq(|s|, i requires 0 <= i < |s| => LowerChar(s[i]))
  }

  function Upper(s: string): (r: string)
    ensures |r| == |s| && forall i :: 0 <= i < |s| ==> r[i] == UpperChar(s[i])
  {
    seq(|s|, i requires 0 <= i < |s| => UpperChar(s[i]))
  }

  /** `units.get(unit.lower())`: the multiplier of a unit name in any case. */
  function Multiplier(unit: string): (mult: Option<nat>)
    ensures mult.Some? <==> Lower(unit) in UnitNames
    ensures mult.Some? ==> mult.value >= MM
  {
    UnitTable(Lower(unit))
  }

  // ----------------------------------------------------------- normalising

  /** The helpers of synapse/lib/syntax.py the normaliser calls, whose source
      is not part of this model: `parse_float` reads a number at an offset
      (or rejects the text), `nom` consumes the letters at an offset. Both
      answer the offset they stopped at. */
  datatype Syntax = Syntax(parseFloat: (string, nat) -> Option<(real, nat)>, nom: (string, nat) -> (string, nat))

  /** A distance as handed to `norm`: a string to parse, or any other value
      (a number of millimetres). */
  datatype DistInput = Text(text: string) | Plain(valu: real)

  datatype DistError =
    | BadNumber               // parse_float rejects the text
    | InvalidUnits(unit: string) // SyntaxError('invalid units: ...')

  /** The unit name `_norm_str` reads, after the number. */
  function UnitOf(syn: Syntax, text: string): Option<string>
  {
    match syn.parseFloat(text, 0)
    case None => None
    case Some(parsed) => Some(syn.nom(text, parsed.1).0)
  }

  /** `_norm_str`: the number read from the text times the multiplier of the
      unit that follows it; a unit missing from the table is a syntax error
      naming the unit as written. The subproperties are always empty, so
      only the value is kept. */
  function NormStr(syn: Syntax, text: string): (r: Result<real, DistError>)
    ensures r.Success? <==> UnitOf(syn, text).Some? && Multiplier(UnitOf(syn, text).value).Some?
    ensures r.Success? ==> r.value == syn.parseFloat(text, 0).value.0 * Multiplier(UnitOf(syn, text).value).value as real
    ensures r == Failure(BadNumber) <==> syn.parseFloat(text, 0).None?
    ensures UnitOf(syn, text).Some? && Multiplier(UnitOf(syn, text).value).None? ==>
      r == Failure(InvalidUnits(UnitOf(syn, text).value))
  {
    match syn.parseFloat(text, 0)
    case None => Failure(BadNumber)
    case Some(parsed) =>
      var (valu, off) := parsed;
      var (unit, _) := syn.nom(text, off);
      match Multiplier(unit)
      case None => Failure(InvalidUnits(unit))
      case Some(mult) => Success(valu * mult as real)
  }

  /** `DistType.norm`: strings are parsed, anything else is kept unchanged. */
  function Norm(syn: Syntax, valu: DistInput): (r: Result<real, DistError>)
    ensures valu.Plain? ==> r == Success(valu.valu)
    ensures valu.Text? ==> r == NormStr(syn, valu.text)
  {
    match valu
    case Text(text) => NormStr(syn, text)
    case Plain(v) => Success(v)
  }

  // ------------------------------------------------------------ properties

  /** Lower-casing the upper-cased name gives the lower-cased name. */
  lemma LowerOfUpper(s: string)
    ensures Lower(Upper(s)) == Lower(s)
  {
    forall i | 0 <= i < |s|
      ensures Lower(Upper(s))[i] == Lower(s)[i]
    {
      var ch := s[i];
      assert Upper(s)[i] == UpperChar(ch);
    }
  }

  /** Lower-casing twice is lower-casing once. */
  lemma LowerIdempotent(s: string)
    ensures Lower(Lower(s)) == Lower(s)
  {
    forall i | 0 <= i < |s|
      ensures Lower(Lower(s))[i] == Lower(s)[i]
    {
      assert Lower(s)[i] == LowerChar(s[i]);
    }
  }

  /** The case of a unit name does not matter: a name, its upper-case and its
      lower-case spelling have the same multiplier. */
  lemma MultiplierIgnoresCase(unit: string)
    ensures Multiplier(Upper(unit)) == Multiplier(unit)
    ensures Multiplier(Lower(unit)) == Multiplier(unit)
  {
    LowerOfUpper(unit);
    LowerIdempotent(unit);
  }

  /** "KM", "Km" and "km" all mean a million millimetres. */
  lemma KilometreSpellings()
    ensures Multiplier("KM") == Multiplier("Km") == Multiplier("km") == Some(1000000)
  {
    assert Lower("KM") == "km";
    assert Lower("Km") == "km";
    assert Lower("km") == "km";
  }

  /** The table itself: "m" and "meters" are synonyms, a millimetre is the
      base, the units grow strictly from millimetres through centimetres and
      metres to kilometres, and a kilometre is a thousand metres. */
  lemma UnitScale()
    ensures Multiplier("m") == Multiplier("meters") == Some(1000)
    ensures Multiplier("mm") == Some(1)
    ensures Multiplier("mm").Some? && Multiplier("cm").Some? && Multiplier("m").Some? && Multiplier("km").Some?
    ensures Multiplier("mm").value < Multiplier("cm").value < Multiplier("m").value < Multiplier("km").value
    ensures Multiplier("km").value == 1000 * Multiplier("m").value
  {
    assert Lower("m") == "m";
    assert Lower("mm") == "mm";
    assert Lower("cm") == "cm";
    assert Lower("km") == "km";
    assert Lower("meters") == "meters";
  }

  /** Two texts whose numbers and units differ only in the case of the unit
      normalise alike, error or value. */
  lemma NormIgnoresUnitCase(syn: Syntax, a: string, b: string)
    requires syn.parseFloat(a, 0).Some? && syn.parseFloat(b, 0).Some?
    requires syn.parseFloat(a, 0).value.0 == syn.parseFloat(b, 0).value.0
    requires Lower(UnitOf(syn, a).value) == Lower(UnitOf(syn, b).value)
    ensures NormStr(syn, a).Success? == NormStr(syn, b).Success?
    ensures NormStr(syn, a).Success? ==> NormStr(syn, a) == NormStr(syn, b)
  {
  }

  /** Converting is scaling: a distance in kilometres is the same distance as
      a thousand times the number in metres. */
  lemma KilometresAreThousandMetres(syn: Syntax, a: string, b: string)
    requires syn.parseFloat(a, 0).Some? && syn.parseFloat(b, 0).Some?
    requires syn.parseFloat(b, 0).value.0 == 1000.0 * syn.parseFloat(a, 0).value.0
    requires Lower(UnitOf(syn, a).value) == "km" && Lower(UnitOf(syn, b).value) == "m"
    ensures NormStr(syn, a).Success? && NormStr(syn, a) == NormStr(syn, b)
  {
  }
}
