/** Small shared datatypes. */
module Basics {
  datatype Option<+T> = None | Some(value: T)

  /** Python truthiness of an optional text: absent and empty both count as missing. */
  predicate Truthy(text: Option<string>) {
    text.Some? && text.value != ""
  }

  /** ASCII white space as strip() sees it. */
  predicate IsSpace(c: char) {
    c == ' ' || 9 <= c as int <= 13 || 28 <= c as int <= 31
  }

  /** strip() on ASCII text. */
  function Strip(text: string): string {
    if text == "" then ""
    else if IsSpace(text[0]) then Strip(text[1..])
    else if IsSpace(text[|text| - 1]) then Strip(text[..|text| - 1])
    else text
  }

  /** Around text[i..j] is nothing but white space, and it neither begins nor ends with any. */
  ghost predicate IsMiddle(text: string, i: nat, j: nat) {
    && i <= j <= |text|
    && (forall k :: 0 <= k < i || j <= k < |text| ==> IsSpace(text[k]))
    && (i < j ==> !IsSpace(text[i]) && !IsSpace(text[j - 1]))
  }

  /** Only white space goes, from both ends, and none is left there. */
  lemma {:induction false} StripExactly(text: string)
    ensures exists i: nat, j: nat :: IsMiddle(text, i, j) && Strip(text) == text[i..j]
  {
    if text == "" {
      assert IsMiddle(text, 0, 0);
    } else if IsSpace(text[0]) {
      var rest := text[1..];
      StripExactly(rest);
      var i: nat, j: nat :| IsMiddle(rest, i, j) && Strip(rest) == rest[i..j];
      assert rest[i..j] == text[i + 1..j + 1];
      assert forall k :: 1 <= k < |text| ==> text[k] == rest[k - 1];
      assert IsMiddle(text, i + 1, j + 1);
    } else if IsSpace(text[|text| - 1]) {
      var rest := text[..|text| - 1];
      StripExactly(rest);
      var i: nat, j: nat :| IsMiddle(rest, i, j) && Strip(rest) == rest[i..j];
      assert rest[i..j] == text[i..j];
      assert IsMiddle(text, i, j);
    } else {
      assert text[0..|text|] == text;
      assert IsMiddle(text, 0, |text|);
    }
  }
}
