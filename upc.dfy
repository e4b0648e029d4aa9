/** The UPC column of the base file: reduce it to digits and commas, split on commas, classify
    each piece by its length, and keep whatever the non-strict EAN-13 constructor accepts. */
module Upc {
  import opened Wrappers
  import opened Externals
  import opened Seqs
  import opened Errors

  /** `c.is_digit(10) || *c == ','` */
  predicate IsUpcChar(c: char) {
    IsDigit(c) || c == ','
  }

  /** The column reduced to digits and commas. */
  function UpcDigits(field: string): (r: string)
    ensures |r| <= |field|
    ensures forall i :: 0 <= i < |r| ==> IsUpcChar(r[i])
  {
    Filter(IsUpcChar, field)
  }

  /** `upc_str.split(",")` */
  function UpcPieces(field: string): (r: seq<string>)
    ensures |r| == Count(',', UpcDigits(field)) + 1
  {
    Split(UpcDigits(field), ',')
  }

  /** What a piece hands to the constructor, if anything. */
  function EanCandidate(piece: string): Option<string> {
    if |piece| == 11 then Some(piece + "0")
    else if |piece| < 11 then None
    else Some(piece)
  }

  /** The closure given to `filter_map`: an 11-character piece lacks its check digit, so a "0"
      is appended for the constructor to correct; a shorter piece is a dead code; a longer one
      is handed on as it is. */
  function NormalizePiece(p: Parsers, piece: string): (r: Option<Ean13>)
    ensures |piece| < 11 ==> r.None?
    ensures |piece| == 11 ==> r == p.ean13NonStrict(piece + "0")
    ensures |piece| >= 12 ==> r == p.ean13NonStrict(piece)
  {
    match EanCandidate(piece)
    case Some(c) => p.ean13NonStrict(c)
    case None => None
  }

  function PieceNormalizer(p: Parsers): string -> Option<Ean13> {
    piece => NormalizePiece(p, piece)
  }

  /** The UPCs of one base row. At most one per comma-separated piece. */
  function ParseUpcs(p: Parsers, field: string): (r: seq<Ean13>)
    ensures |r| <= Count(',', UpcDigits(field)) + 1
  {
    FilterMap(PieceNormalizer(p), UpcPieces(field))
  }

  /** The strings the constructor is called on, in call order. */
  function EanInputs(field: string): seq<string> {
    FilterMap(EanCandidate, UpcPieces(field))
  }

  lemma {:induction false} NormalizeAllThroughCandidates(p: Parsers, pieces: seq<string>)
    ensures FilterMap(PieceNormalizer(p), pieces)
         == FilterMap(p.ean13NonStrict, FilterMap(EanCandidate, pieces))
  {
    if pieces != [] {
      NormalizeAllThroughCandidates(p, pieces[1..]);
      var piece := pieces[0];
      assert PieceNormalizer(p)(piece) == match EanCandidate(piece) case Some(c) => p.ean13NonStrict(c) case None => None;
      var rest := FilterMap(EanCandidate, pieces[1..]);
      match EanCandidate(piece)
      case None =>
        assert FilterMap(EanCandidate, pieces) == rest;
      case Some(c) =>
        assert FilterMap(EanCandidate, pieces) == [c] + rest;
        assert ([c] + rest)[1..] == rest;
    }
  }

  /** The UPCs are the constructor's successes on the candidate strings, in order; its failures
      are dropped and never reported. */
  lemma ParseUpcsThroughInputs(p: Parsers, field: string)
    ensures ParseUpcs(p, field) == FilterMap(p.ean13NonStrict, EanInputs(field))
  {
    NormalizeAllThroughCandidates(p, UpcPieces(field));
  }

  /** Every piece is a run of ASCII digits. */
  lemma PiecesAreDigits(field: string, i: nat, j: nat)
    requires i < |UpcPieces(field)| && j < |UpcPieces(field)[i]|
    ensures IsDigit(UpcPieces(field)[i][j])
  {
    SplitElements(UpcDigits(field), ',', i, j);
  }

  /** The constructor is called only on digit strings of length 12 or more: an 11-digit piece
      with "0" appended, or a piece of 12 or more digits unchanged. Pieces shorter than 11 never
      reach it. */
  lemma {:induction false} EanInputsShape(field: string, c: string)
    ensures c in EanInputs(field) <==>
      exists i :: 0 <= i < |UpcPieces(field)| &&
        ((|UpcPieces(field)[i]| == 11 && c == UpcPieces(field)[i] + "0") ||
         (|UpcPieces(field)[i]| >= 12 && c == UpcPieces(field)[i]))
    ensures c in EanInputs(field) ==> |c| >= 12 && forall j :: 0 <= j < |c| ==> IsDigit(c[j])
  {
    var pieces := UpcPieces(field);
    FilterMapMembers(EanCandidate, pieces, c);
    if c in EanInputs(field) {
      var i :| 0 <= i < |pieces| && EanCandidate(pieces[i]) == Some(c);
      forall j | 0 <= j < |c| ensures IsDigit(c[j]) {
        if j < |pieces[i]| {
          PiecesAreDigits(field, i, j);
        }
      }
    }
  }

  /** The constructor is consulted only on strings of 12 or more characters: two constructors
      that agree there give the same UPCs. */
  lemma OnlyLongCodesConsulted(p: Parsers, q: Parsers, field: string)
    requires forall s: string :: |s| >= 12 ==> p.ean13NonStrict(s) == q.ean13NonStrict(s)
    ensures ParseUpcs(p, field) == ParseUpcs(q, field)
  {
    var inputs := EanInputs(field);
    forall i | 0 <= i < |inputs| ensures p.ean13NonStrict(inputs[i]) == q.ean13NonStrict(inputs[i]) {
      EanInputsShape(field, inputs[i]);
    }
    FilterMapCongruent(p.ean13NonStrict, q.ean13NonStrict, inputs);
    ParseUpcsThroughInputs(p, field);
    ParseUpcsThroughInputs(q, field);
  }

  /** A column without any digit, the empty column among them, yields no UPCs. */
  lemma NoDigitsNoUpcs(p: Parsers, field: string)
    requires forall i :: 0 <= i < |field| ==> !IsDigit(field[i])
    ensures ParseUpcs(p, field) == []
  {
    var pieces := UpcPieces(field);
    var digits := UpcDigits(field);
    forall k | 0 <= k < |digits| ensures digits[k] == ',' {
      assert digits[k] in field;
    }
    SplitOnlySeparators(digits, ',');
    FilterMapAllNone(PieceNormalizer(p), pieces);
  }

  /** The UPCs of a comma-joined column are those of its left part followed by those of its
      right part: surviving codes keep their input order. */
  lemma ParseUpcsConcat(p: Parsers, a: string, b: string)
    ensures ParseUpcs(p, a + "," + b) == ParseUpcs(p, a) + ParseUpcs(p, b)
  {
    FilterConcat(IsUpcChar, a + ",", b);
    FilterConcat(IsUpcChar, a, ",");
    assert Filter(IsUpcChar, ",") == ",";
    SplitConcat(UpcDigits(a), UpcDigits(b), ',');
    FilterMapConcat(PieceNormalizer(p), UpcPieces(a), UpcPieces(b));
  }

  /** A run of digits without commas is one piece: it yields the constructor's result on it,
      or nothing. */
  lemma SinglePiece(p: Parsers, digits: string)
    requires forall i :: 0 <= i < |digits| ==> IsDigit(digits[i])
    ensures ParseUpcs(p, digits) == match NormalizePiece(p, digits) case Some(u) => [u] case None => []
  {
    FilterIdentity(IsUpcChar, digits);
    SplitPrefix(digits, [], ',');
    assert digits + [] == digits;
    assert UpcPieces(digits) == [digits];
  }
}
