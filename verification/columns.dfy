/**
 * The required-column check of the upload handler. A header satisfies a
 * required column when it is present and equal to it after trimming and
 * lower-casing both; every required column must be satisfied by some header.
 */
module Columns {
  import opened AsciiText

  const BadgeClassColumn := "Badge Class"
  const NameColumn := "Name"
  const EmailColumn := "Email Address"

  const RequiredColumns: seq<string> := [BadgeClassColumn, NameColumn, EmailColumn]

  /** The callback of `headers.some`: `header && header.trim().toLowerCase() === col.toLowerCase()`. */
  predicate HeaderMatches(header: string, col: string) {
    header != "" && ToLower(Trim(header)) == ToLower(col)
  }

  /** `headers.some(header => HeaderMatches(header, col))`. */
  predicate SomeHeaderMatches(headers: seq<string>, col: string) {
    if headers == [] then false
    else HeaderMatches(headers[0], col) || SomeHeaderMatches(headers[1..], col)
  }

  /** `cols.every(col => headers.some(...))`. */
  predicate EveryColumnPresent(cols: seq<string>, headers: seq<string>) {
    if cols == [] then true
    else SomeHeaderMatches(headers, cols[0]) && EveryColumnPresent(cols[1..], headers)
  }

  predicate HasRequiredColumns(headers: seq<string>) {
    EveryColumnPresent(RequiredColumns, headers)
  }

  /** The declarative reading: `col` is matched by some header of the list, wherever it stands. */
  ghost predicate Present(headers: seq<string>, col: string) {
    exists h :: h in headers && HeaderMatches(h, col)
  }

  lemma {:induction false} SomeHeaderMatchesIff(headers: seq<string>, col: string)
    ensures SomeHeaderMatches(headers, col) <==> Present(headers, col)
    decreases |headers|
  {
    if headers != [] {
      SomeHeaderMatchesIff(headers[1..], col);
      assert forall h :: h in headers <==> h == headers[0] || h in headers[1..];
    }
  }

  lemma {:induction false} EveryColumnPresentIff(cols: seq<string>, headers: seq<string>)
    ensures EveryColumnPresent(cols, headers) <==> forall j :: 0 <= j < |cols| ==> Present(headers, cols[j])
    decreases |cols|
  {
    if cols != [] {
      SomeHeaderMatchesIff(headers, cols[0]);
      EveryColumnPresentIff(cols[1..], headers);
      assert forall j :: 1 <= j < |cols| ==> cols[j] == cols[1..][j - 1];
    }
  }

  /**
   * Validation succeeds exactly when each of the required names ("Badge Class",
   * "Name", "Email Address") is matched by some header.
   */
  lemma HasRequiredColumnsIff(headers: seq<string>)
    ensures HasRequiredColumns(headers) <==>
      forall j :: 0 <= j < |RequiredColumns| ==> Present(headers, RequiredColumns[j])
  {
    EveryColumnPresentIff(RequiredColumns, headers);
  }

  /**
   * Neither header order nor extra columns matter: a header list that contains
   * every header of a valid list is valid too.
   */
  lemma ValidationIgnoresOrderAndExtras(headers: seq<string>, more: seq<string>)
    requires forall h :: h in headers ==> h in more
    requires HasRequiredColumns(headers)
    ensures HasRequiredColumns(more)
  {
    HasRequiredColumnsIff(headers);
    HasRequiredColumnsIff(more);
  }

  /** A header matches a required column when it is that column's name up to case and surrounding whitespace. */
  lemma PaddedCaseVariantMatches(before: string, header: string, after: string, col: string)
    requires AllSpace(before) && AllSpace(after) && IsTrimmed(header) && header != []
    requires ToLower(header) == ToLower(col)
    ensures HeaderMatches(before + header + after, col)
  {
    TrimPadded(before, header, after);
  }

  /** The required names, written exactly, pass in any order and beside extra columns. */
  lemma ExactHeadersPass()
    ensures HasRequiredColumns(["Badge Class", "Name", "Email Address"])
    ensures HasRequiredColumns(["Email Address", "Name", "Badge Class", "Notes"])
  {
    var exact := ["Badge Class", "Name", "Email Address"];
    ExactNameMatches(BadgeClassColumn);
    ExactNameMatches(NameColumn);
    ExactNameMatches(EmailColumn);
    assert forall j :: 0 <= j < |RequiredColumns| ==> RequiredColumns[j] == exact[j] && exact[j] in exact;
    HasRequiredColumnsIff(exact);
    ValidationIgnoresOrderAndExtras(exact, ["Email Address", "Name", "Badge Class", "Notes"]);
  }

  lemma ExactNameMatches(col: string)
    requires col in RequiredColumns
    ensures HeaderMatches(col, col)
  {
    assert IsTrimmed(col);
    TrimOfTrimmed(col);
  }

  /**
   * Validation is lenient: any case variants of the three required names, each
   * padded on either side with any ASCII whitespace, pass.
   */
  lemma CaseVariantHeadersPass(b0: string, b: string, b1: string, n0: string, n: string, n1: string,
                               e0: string, e: string, e1: string)
    requires AllSpace(b0) && AllSpace(b1) && IsTrimmed(b) && b != [] && ToLower(b) == ToLower(BadgeClassColumn)
    requires AllSpace(n0) && AllSpace(n1) && IsTrimmed(n) && n != [] && ToLower(n) == ToLower(NameColumn)
    requires AllSpace(e0) && AllSpace(e1) && IsTrimmed(e) && e != [] && ToLower(e) == ToLower(EmailColumn)
    ensures HasRequiredColumns([b0 + b + b1, n0 + n + n1, e0 + e + e1])
  {
    var headers := [b0 + b + b1, n0 + n + n1, e0 + e + e1];
    PaddedCaseVariantMatches(b0, b, b1, BadgeClassColumn);
    PaddedCaseVariantMatches(n0, n, n1, NameColumn);
    PaddedCaseVariantMatches(e0, e, e1, EmailColumn);
    assert headers[0] in headers && headers[1] in headers && headers[2] in headers;
    HasRequiredColumnsIff(headers);
  }

  /**
   * One instance: the spellings `badge class`, `NAME` and `email ADDRESS`, with
   * whitespace before the first, after the second and around the third, pass.
   */
  lemma LenientHeadersPass(pad: string, pad': string)
    requires AllSpace(pad) && AllSpace(pad')
    ensures HasRequiredColumns([pad + "badge class", "NAME" + pad', pad + "email ADDRESS" + pad'])
  {
    var lenient := [pad + "badge class", "NAME" + pad', pad + "email ADDRESS" + pad'];
    LenientBadgeClass(pad);
    LenientName(pad');
    LenientEmail(pad, pad');
    assert HeaderMatches(lenient[0], RequiredColumns[0]);
    assert HeaderMatches(lenient[1], RequiredColumns[1]);
    assert HeaderMatches(lenient[2], RequiredColumns[2]);
    assert lenient[0] in lenient && lenient[1] in lenient && lenient[2] in lenient;
    HasRequiredColumnsIff(lenient);
  }

  lemma LenientBadgeClass(pad: string)
    requires AllSpace(pad)
    ensures HeaderMatches(pad + "badge class", BadgeClassColumn)
  {
    CaseVariant("badge class", BadgeClassColumn);
    PaddedCaseVariantMatches(pad, "badge class", "", BadgeClassColumn);
    assert pad + "badge class" + "" == pad + "badge class";
  }

  lemma LenientName(pad: string)
    requires AllSpace(pad)
    ensures HeaderMatches("NAME" + pad, NameColumn)
  {
    CaseVariant("NAME", NameColumn);
    PaddedCaseVariantMatches("", "NAME", pad, NameColumn);
    assert "" + "NAME" + pad == "NAME" + pad;
  }

  lemma LenientEmail(pad: string, pad': string)
    requires AllSpace(pad) && AllSpace(pad')
    ensures HeaderMatches(pad + "email ADDRESS" + pad', EmailColumn)
  {
    CaseVariant("email ADDRESS", EmailColumn);
    PaddedCaseVariantMatches(pad, "email ADDRESS", pad', EmailColumn);
  }

  /** `word` is `col` up to the case of its letters, with no whitespace at either end. */
  lemma CaseVariant(word: string, col: string)
    requires |word| == |col| && word != []
    requires forall i :: 0 <= i < |word| ==> LowerChar(word[i]) == LowerChar(col[i])
    requires !IsSpace(word[0]) && !IsSpace(word[|word| - 1])
    ensures IsTrimmed(word) && ToLower(word) == ToLower(col)
  {
    ToLowerCaseInsensitive(word, col);
  }

  /** A list without any header that trims and folds to "name" is rejected. */
  lemma MissingNameRejected(headers: seq<string>)
    requires forall h :: h in headers ==> ToLower(Trim(h)) != "name"
    ensures !HasRequiredColumns(headers)
  {
    HasRequiredColumnsIff(headers);
    assert ToLower(NameColumn) == "name";
    assert !Present(headers, RequiredColumns[1]);
  }
}
