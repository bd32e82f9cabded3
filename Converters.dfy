/** The values the WPF bindings hand to the converters: a boxed object is
    known by its runtime type and, where a converter asks for it, by the
    string its ToString() returns. */
module Bindings {
  import opened Text

  /** System.Windows.Visibility. */
  datatype Visibility = Visible | Hidden | Collapsed

  /** A boxed binding value. A boxed `bool?` is either a boxed bool or
      null, so it needs no case of its own. */
  datatype Value =
    | Null
    | Unset                       // DependencyProperty.UnsetValue
    | BoolValue(b: bool)
    | IntValue(i: int)
    | StringValue(s: string)
    | VisibilityValue(v: Visibility)
    | OtherValue(text: string)    // any other object, by its ToString()

  /** ToString() of a non-null value. */
  function ToText(v: Value): string
    requires v != Null
  {
    match v
    case Unset => "{DependencyProperty.UnsetValue}"
    case BoolValue(b) => if b then "True" else "False"
    case IntValue(i) => IntToString(i)
    case StringValue(s) => s
    case VisibilityValue(x) =>
      (match x case Visible => "Visible" case Hidden => "Hidden" case Collapsed => "Collapsed")
    case OtherValue(t) => t
  }

  /** The converters' case-insensitive invert test: a non-null parameter
      whose lower-cased string is "invert" or "true". */
  predicate InvertRequested(parameter: Value) {
    parameter != Null && (Lower(ToText(parameter)) == "invert" || Lower(ToText(parameter)) == "true")
  }
}

/** Converters/BoolToVisibilityConverter.cs. */
module BoolToVisibilityConverter {
  import opened Text
  import opened Bindings

  /** A bool (or a boxed bool?) is read as itself, anything else as false. */
  function AsBool(value: Value): bool {
    value.BoolValue? && value.b
  }

  /** Visible exactly when the value reads as true, unless the parameter
      asks for inversion; never Hidden. */
  function Convert(value: Value, parameter: Value): (r: Visibility)
    ensures r != Hidden
    ensures r == Visible <==> AsBool(value) != InvertRequested(parameter)
    ensures !value.BoolValue? && !InvertRequested(parameter) ==> r == Collapsed
  {
    var b := AsBool(value);
    var shown := if InvertRequested(parameter) then !b else b;
    if shown then Visible else Collapsed
  }

  /** The unboxing cast admits only a Visibility; Visible reads as true and
      both other states as false, before the same inversion. */
  function ConvertBack(value: Visibility, parameter: Value): (r: bool)
    ensures r <==> (value == Visible) != InvertRequested(parameter)
  {
    var result := value == Visible;
    if InvertRequested(parameter) then !result else result
  }

  /** A bool survives the trip out and back, whatever the parameter. */
  lemma BoolRoundTrip(b: bool, parameter: Value)
    ensures ConvertBack(Convert(BoolValue(b), parameter), parameter) == b
  {
  }

  /** The two states Convert produces survive the trip back and out;
      Hidden comes back as Collapsed. */
  lemma VisibilityRoundTrip(v: Visibility, parameter: Value)
    ensures v != Hidden ==> Convert(BoolValue(ConvertBack(v, parameter)), parameter) == v
    ensures v == Hidden ==> Convert(BoolValue(ConvertBack(v, parameter)), parameter) == Collapsed
  {
  }

  /** The test ignores case. */
  lemma InvertIgnoresCase(value: Value, p: string)
    ensures Convert(value, StringValue(p)) == Convert(value, StringValue(Lower(p)))
  {
    LowerIdempotent(p);
  }

  /** A boxed `true` passed as the parameter inverts too, since its string
      is "True"; a boxed `false` does not. */
  lemma BoolParameter(value: Value)
    ensures Convert(value, BoolValue(true)) != Convert(value, Null)
    ensures Convert(value, BoolValue(false)) == Convert(value, Null)
  {
    var t := Lower("True");
    assert t[0] == 't' && t[1] == 'r' && t[2] == 'u' && t[3] == 'e';
    assert t == "true";
    assert Lower("False")[0] == 'f';
  }
}

/** Converters/UsingConverters.cs: two converters whose names clash with
    the ones in their own files; they are kept apart here. */
module UsingConverters {
  import opened Bindings

  /** SingleSelectedConverter: true exactly for the boxed int 1. */
  function SingleSelectedConvert(value: Value): (r: bool)
    ensures r <==> value == IntValue(1)
  {
    match value
    case IntValue(count) => count == 1
    case _ => false
  }

  /** Inversion here needs the parameter's string to be exactly "Invert". */
  predicate ExactInvert(parameter: Value) {
    parameter != Null && ToText(parameter) == "Invert"
  }

  /** BoolToVisibilityConverter.Convert: a true bool is Visible, anything
      else Collapsed, swapped by the exact "Invert" parameter. */
  function BoolToVisibilityConvert(value: Value, parameter: Value): (r: Visibility)
    ensures r != Hidden
    ensures r == Visible <==> (value == BoolValue(true)) != ExactInvert(parameter)
  {
    var result := value.BoolValue? && value.b;
    if ExactInvert(parameter) then (if result then Collapsed else Visible)
    else (if result then Visible else Collapsed)
  }

  /** BoolToVisibilityConverter.ConvertBack: any value that is not the
      Visible state reads as false, then the same inversion. */
  function BoolToVisibilityConvertBack(value: Value, parameter: Value): (r: bool)
    ensures r <==> (value == VisibilityValue(Visible)) != ExactInvert(parameter)
  {
    var result := value.VisibilityValue? && value.v == Visible;
    if ExactInvert(parameter) then !result else result
  }

  lemma BoolRoundTrip(b: bool, parameter: Value)
    ensures BoolToVisibilityConvertBack(VisibilityValue(BoolToVisibilityConvert(BoolValue(b), parameter)), parameter) == b
  {
  }

  /** Unlike the other converter, the test is case-sensitive: "invert"
      does not invert here. */
  lemma CaseMatters(value: Value)
    ensures BoolToVisibilityConvert(value, StringValue("invert")) == BoolToVisibilityConvert(value, Null)
    ensures BoolToVisibilityConvert(value, StringValue("Invert")) != BoolToVisibilityConvert(value, Null)
  {
    assert "invert" != "Invert" by {
      assert "invert"[0] != "Invert"[0];
    }
  }
}

/** Converters/MultiValueToVisibilityConverter.cs. */
module MultiValueToVisibilityConverter {
  import opened Wrappers
  import opened Bindings

  /** The loop's test of one value: a false bool, a null or empty string,
      null and UnsetValue fail; every other object passes. */
  predicate Satisfied(v: Value) {
    match v
    case BoolValue(b) => b
    case StringValue(s) => s != []
    case Null => false
    case Unset => false
    case _ => true
  }

  /** What the foreach decides: every value passes the test. */
  function AllTrue(values: seq<Value>): (r: bool)
    ensures r <==> forall i :: 0 <= i < |values| ==> Satisfied(values[i])
  {
    if values == [] then true
    else if !Satisfied(values[0]) then false
    else
      assert forall i :: 0 < i < |values| ==> values[i] == values[1..][i - 1];
      AllTrue(values[1..])
  }

  /** The foreach itself: `allTrue` starts true, and the first value that
      fails sets it to false and breaks out of the loop. */
  method ScanValues(values: seq<Value>) returns (allTrue: bool)
    ensures allTrue == AllTrue(values)
  {
    allTrue := true;
    var i := 0;
    while i < |values|
      invariant 0 <= i <= |values|
      invariant allTrue && forall k :: 0 <= k < i ==> Satisfied(values[k])
    {
      if !Satisfied(values[i]) {
        allTrue := false;
        break;
      }
      i := i + 1;
    }
  }

  /** Visible for a null or empty array; otherwise Visible exactly when
      every value passes, the other way round when inverted. */
  function Convert(values: Option<seq<Value>>, parameter: Value): (r: Visibility)
    ensures r != Hidden
    ensures values.None? || values.value == [] ==> r == Visible
    ensures values.Some? && values.value != [] ==>
              (r == Visible <==> (forall v :: v in values.value ==> Satisfied(v)) != InvertRequested(parameter))
  {
    if values.None? || values.value == [] then Visible
    else
      var allTrue := AllTrue(values.value);
      if InvertRequested(parameter) then (if allTrue then Collapsed else Visible)
      else (if allTrue then Visible else Collapsed)
  }

  /** The early break only saves work: reordering the values, or repeating
      some, does not change the outcome. */
  lemma OrderIrrelevant(a: seq<Value>, b: seq<Value>, parameter: Value)
    requires multiset(a) == multiset(b)
    ensures Convert(Some(a), parameter) == Convert(Some(b), parameter)
  {
    assert forall v :: v in a <==> v in multiset(a);
    assert forall v :: v in b <==> v in multiset(b);
  }

  /** A single failing value hides the element (shows it when inverted),
      wherever it stands. */
  lemma OneFailureDecides(values: seq<Value>, i: nat, parameter: Value)
    requires i < |values| && !Satisfied(values[i])
    ensures Convert(Some(values), parameter) == if InvertRequested(parameter) then Visible else Collapsed
  {
    assert values[i] in values;
  }
}

/** Converters/ExtensionToColorConverter.cs. */
module ExtensionToColorConverter {
  import opened Text
  import opened Bindings
  import BookImport

  /** The brush colours of the badge. */
  datatype Color = Black | Brown | DodgerBlue | DarkGreen | BlueViolet | Gray

  /** The colour table, keyed by a normalised extension. */
  function ColorOf(ext: string): (r: Color)
    ensures r != Gray <==> ext in ["txt", "pdf", "mobi", "epub", "azw3"]
  {
    match ext
    case "txt" => Black
    case "pdf" => Brown
    case "mobi" => DodgerBlue
    case "epub" => DarkGreen
    case "azw3" => BlueViolet
    case _ => Gray
  }

  /** Leading dots stripped, then lower-cased. */
  function Normalize(extension: string): string {
    Lower(TrimStartChar(extension, '.'))
  }

  /** A string is looked up after normalisation; any other value is Gray. */
  function Convert(value: Value): (r: Color)
    ensures !value.StringValue? ==> r == Gray
    ensures value.StringValue? ==> r == ColorOf(Normalize(value.s))
  {
    if value.StringValue? then ColorOf(Normalize(value.s)) else Gray
  }

  /** Dots in front and the case of the letters do not matter. */
  lemma NormalizeIgnoresDotsAndCase(e: string)
    ensures Normalize("." + e) == Normalize(e)
    ensures Normalize(Lower(e)) == Normalize(e)
  {
    assert ("." + e)[1..] == e;
    LowerTrim(e);
  }

  lemma {:induction false} LowerTrim(e: string)
    ensures Lower(TrimStartChar(Lower(e), '.')) == Lower(TrimStartChar(e, '.'))
  {
    if e != [] && e[0] == '.' {
      assert Lower(e)[0] == '.' && Lower(e)[1..] == Lower(e[1..]);
      LowerTrim(e[1..]);
    } else if e != [] {
      assert Lower(e)[0] != '.';
      LowerIdempotent(e);
    }
  }

  /** ".PDF", "pdf" and "..pdf" all show as PDF. */
  lemma PdfSpellings()
    ensures Convert(StringValue(".PDF")) == Brown
    ensures Convert(StringValue("pdf")) == Brown
    ensures Convert(StringValue("..pdf")) == Brown
  {
    assert TrimStartChar(".PDF", '.') == "PDF";
    var u := Lower("PDF");
    assert u[0] == 'p' && u[1] == 'd' && u[2] == 'f';
    assert u == "pdf";
    assert TrimStartChar("pdf", '.') == "pdf";
    LowerUnchanged("pdf");
    assert TrimStartChar("..pdf", '.') == TrimStartChar(".pdf", '.') == "pdf";
  }

  /** Every importable format has a colour of its own. */
  lemma SupportedFormatsColored()
    ensures forall f :: f in BookImport.SupportedFormats ==> Convert(StringValue(f)) != Gray
  {
    forall f | f in BookImport.SupportedFormats ensures Convert(StringValue(f)) != Gray {
      assert f[0] == '.' && f[1] != '.';
      assert TrimStartChar(f, '.') == f[1..];
      LowerUnchanged(f[1..]);
    }
  }

  /** An extension with a single leading dot normalises to the rest of
      it, lower-cased. */
  lemma NormalizeDotted(e: string)
    requires |e| >= 2 && e[0] == '.' && e[1] != '.'
    ensures Normalize(e) == Lower(e)[1..]
  {
    assert TrimStartChar(e, '.') == e[1..];
    LowerTail(e);
  }

  /** The extension of every importable path gets a colour other than
      Gray, whatever the case of its letters. */
  lemma ImportedExtensionColored(path: string)
    requires BookImport.IsSupported(path)
    ensures Convert(StringValue(GetExtension(path))) != Gray
  {
    var e := GetExtension(path);
    var f := Lower(e);
    NormalizeDotted(e);
    NormalizeDotted(f);
    LowerIdempotent(e);
    SupportedFormatsColored();
  }
}

/** Converters/SingleSelectedConverter.cs. */
module SingleSelectedConverter {
  import opened Text
  import opened Bindings

  /** True when there are two non-null values whose strings are equal
      (ordinal); later values are not looked at. */
  function Convert(values: seq<Value>): (r: bool)
    ensures |values| < 2 ==> !r
    ensures |values| >= 2 ==> (r <==> values[0] != Null && values[1] != Null && ToText(values[0]) == ToText(values[1]))
  {
    if |values| < 2 || values[0] == Null || values[1] == Null then false
    else ToText(values[0]) == ToText(values[1])
  }

  /** Only the first two values count. */
  lemma ExtraValuesIgnored(values: seq<Value>, extra: seq<Value>)
    requires |values| >= 2
    ensures Convert(values + extra) == Convert(values)
  {
  }

  /** A view name compares equal to itself and to nothing else; a category
      view, whose name is the category's Id written out, selects the tag
      that holds that Id as a number. */
  lemma SelectionMatchesView(view: string, tag: string, id: int)
    ensures Convert([StringValue(view), StringValue(tag)]) <==> view == tag
    ensures Convert([StringValue(IntToString(id)), IntValue(id)])
  {
  }
}
