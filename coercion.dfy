/**
  The value coercer `coerce` of src/snip_tsv.py: turns a raw text cell, or a
  command-line flag that may be absent, into a typed literal value.

  Python's `ast.literal_eval` is not modelled; it is an `Evaluator` parameter
  with a three-way outcome: a value, a syntax failure, or a value failure.
*/
module Coercion {
  import opened Results

  /** The typed values a cell or a marker can hold after coercion. */
  datatype Value =
    | NoneLit              // Python's None: an absent flag, or the literal text `None`
    | Int(i: int)
    | Str(s: string)
    | Nan                  // float('nan'); its floating-point behaviour is not modelled
    | Other(repr: string)  // any other literal (float, bool, tuple, ...), named by its repr

  /** The exceptions the pipeline lets escape. */
  datatype Error = SyntaxError | ValueError | StopIteration | IndexError

  /** What `ast.literal_eval` does with one piece of text. */
  datatype Evaluation = Evaluated(v: Value) | SyntaxFailure | ValueFailure

  type Evaluator = string -> Evaluation

  /** The exception an evaluation raises, if any. */
  function Raised(e: Evaluation): (r: Result<Value, Error>)
    ensures r.Success? <==> e.Evaluated?
    ensures e.Evaluated? ==> r == Success(e.v)
    ensures e.SyntaxFailure? ==> r == Failure(SyntaxError)
    ensures e.ValueFailure? ==> r == Failure(ValueError)
  {
    match e
    case Evaluated(v) => Success(v)
    case SyntaxFailure => Failure(SyntaxError)
    case ValueFailure => Failure(ValueError)
  }

  /** `c.lower()` on the characters this model distinguishes (ASCII letters). */
  function LowerChar(c: char): (r: char)
    ensures 'A' <= c <= 'Z' ==> 'a' <= r <= 'z' && r as int - c as int == 'a' as int - 'A' as int
    ensures !('A' <= c <= 'Z') ==> r == c
  {
    if 'A' <= c <= 'Z' then (c as int + 32) as char else c
  }

  /** `s.lower()` */
  function Lower(s: string): (r: string)
    ensures |r| == |s|
    ensures forall i :: 0 <= i < |s| ==> r[i] == LowerChar(s[i])
  {
    seq(|s|, i requires 0 <= i < |s| => LowerChar(s[i]))
  }

  /** `s.lower() == "nan"` */
  predicate IsNanText(s: string)
    ensures IsNanText(s) ==> |s| == 3 && (s[0] == 'n' || s[0] == 'N') && (s[2] == 'n' || s[2] == 'N')
  {
    Lower(s) == "nan"
  }

  /** The text `f"'{s}'"` that is evaluated on the retry after a syntax failure. */
  function Quote(s: string): (q: string)
    ensures |q| == |s| + 2 && q[0] == '\'' && q[|q| - 1] == '\'' && q[1..|q| - 1] == s
  {
    "'" + s + "'"
  }

  /**
    `coerce(s)`: None passes through; otherwise the text is evaluated; a
    syntax failure is retried on the quoted text (whose own failure
    escapes); a value failure is rescued only for the text "nan" in any
    letter case, and otherwise re-raised.
  */
  function Coerce(eval: Evaluator, text: Option<string>): (r: Result<Value, Error>)
    ensures text.None? ==> r == Success(NoneLit)
    ensures text.Some? && eval(text.value).Evaluated? ==> r == Success(eval(text.value).v)
    ensures text.Some? && eval(text.value).SyntaxFailure? ==> r == Raised(eval(Quote(text.value)))
    ensures r.Failure? <==>
      text.Some? &&
      ((eval(text.value).ValueFailure? && !IsNanText(text.value)) ||
       (eval(text.value).SyntaxFailure? && !eval(Quote(text.value)).Evaluated?))
    ensures r.Failure? && eval(text.value).ValueFailure? ==> r.error == ValueError
  {
    match text
    case None => Success(NoneLit)
    case Some(s) =>
      match eval(s)
      case Evaluated(v) => Success(v)
      case SyntaxFailure => Raised(eval(Quote(s)))
      case ValueFailure => if IsNanText(s) then Success(Nan) else Failure(ValueError)
  }

  /** Only the letters N and n lower to 'n', only A and a to 'a'. */
  lemma LowerCharIs(c: char)
    ensures LowerChar(c) == 'n' <==> c == 'n' || c == 'N'
    ensures LowerChar(c) == 'a' <==> c == 'a' || c == 'A'
  {
  }

  /** The texts rescued as NaN are exactly the eight letter-case spellings of "nan". */
  lemma NanSpellings(s: string)
    ensures IsNanText(s) <==>
      s in {"nan", "naN", "nAn", "nAN", "Nan", "NaN", "NAn", "NAN"}
  {
    if IsNanText(s) {
      assert |s| == 3;
      assert LowerChar(s[0]) == 'n' && LowerChar(s[1]) == 'a' && LowerChar(s[2]) == 'n' by {
        assert Lower(s)[0] == LowerChar(s[0]) && Lower(s)[1] == LowerChar(s[1]);
        assert Lower(s)[2] == LowerChar(s[2]);
      }
      LowerCharIs(s[0]);
      LowerCharIs(s[1]);
      LowerCharIs(s[2]);
      assert s == [s[0], s[1], s[2]];
    }
  }

  /**
    A value failure is rescued as NaN for every spelling of "nan" and for no
    other text; it never reaches the quoted retry.
  */
  lemma NanRescue(eval: Evaluator, s: string)
    requires eval(s).ValueFailure?
    ensures Coerce(eval, Some(s)) == (if IsNanText(s) then Success(Nan) else Failure(ValueError))
    ensures Coerce(eval, Some(s)) == Success(Nan) <==>
      s in {"nan", "naN", "nAn", "nAN", "Nan", "NaN", "NAn", "NAN"}
  {
    NanSpellings(s);
  }

  /**
    An evaluator that reads a quoted text without quotes, backslashes, line
    breaks or NUL characters as that text itself, as `ast.literal_eval` does.
  */
  ghost predicate ReadsQuotedStrings(eval: Evaluator)
  {
    forall s: string {:trigger Quote(s)} ::
      PlainText(s) ==> eval(Quote(s)) == Evaluated(Str(s))
  }

  predicate PlainText(s: string)
  {
    forall i :: 0 <= i < |s| ==> s[i] != '\'' && s[i] != '\\' && s[i] != '\n' && s[i] != '\r' && s[i] != '\0'
  }

  /**
    The purpose of the quoted retry: text that is not even syntactically a
    literal comes back as the string it spells.
  */
  lemma BareTextIsString(eval: Evaluator, s: string)
    requires ReadsQuotedStrings(eval)
    requires PlainText(s)
    requires eval(s).SyntaxFailure?
    ensures Coerce(eval, Some(s)) == Success(Str(s))
  {
  }
}
