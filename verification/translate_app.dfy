/**
 The small decisions the translator's page makes before a batch starts: the
 API endpoint loses a trailing `/chat/completions`, the language list is read
 from the `LANGUAGES` setting, and the convert button is enabled (with a help
 text) only once documents, an output bucket and languages are chosen.
 */
module TranslateApp {
  import opened Text

  const ChatCompletions: string := "/chat/completions"

  /** The endpoint with one trailing `/chat/completions` removed, if it has one. */
  function CleanEndpoint(endpoint: string): (r: string)
    ensures EndsWith(endpoint, ChatCompletions) ==> r + ChatCompletions == endpoint
    ensures !EndsWith(endpoint, ChatCompletions) ==> r == endpoint
  {
    if |endpoint| > 0 && EndsWith(endpoint, ChatCompletions) then
      assert endpoint[..|endpoint| - |ChatCompletions|] + endpoint[|endpoint| - |ChatCompletions|..] == endpoint;
      endpoint[..|endpoint| - |ChatCompletions|]
    else endpoint
  }

  /** The languages offered when `LANGUAGES` is unset or empty. */
  const DefaultLanguages: seq<string> := [
    "English", "Spanish", "French", "German", "Italian",
    "Portuguese", "Russian", "Chinese", "Japanese", "Korean",
    "Arabic", "Hindi", "Dutch", "Swedish", "Norwegian"
  ]

  /** The comprehension `[lang.strip() for lang in items if lang.strip()]`. */
  function CleanItems(items: seq<string>): (r: seq<string>)
    ensures |r| <= |items|
  {
    if items == [] then []
    else (if Strip(items[0]) != "" then [Strip(items[0])] else []) + CleanItems(items[1..])
  }

  /** The language list: the comma-separated, trimmed, non-empty items of
      `LANGUAGES`, or the default list when the setting is empty. */
  function ParseLanguages(setting: string): seq<string> {
    if setting != "" then CleanItems(Split(setting, ',')) else DefaultLanguages
  }

  predicate Trimmed(s: string) {
    s != "" && Strip(s) == s
  }

  /** The comprehension keeps order: cleaning two runs of items one after the other
      is cleaning them together. */
  lemma {:induction false} CleanItemsAppend(a: seq<string>, b: seq<string>)
    ensures CleanItems(a + b) == CleanItems(a) + CleanItems(b)
  {
    if a != [] {
      CleanItemsAppend(a[1..], b);
      assert (a + b)[1..] == a[1..] + b;
    } else {
      assert a + b == b;
    }
  }

  /** A language is listed exactly when some item of the setting trims to it, and
      every listed language is non-empty and trimmed. */
  lemma {:induction false} CleanItemsMembers(items: seq<string>)
    ensures forall x :: x in CleanItems(items) ==> Trimmed(x)
    ensures forall x :: x in CleanItems(items) <==>
      x != "" && exists i :: 0 <= i < |items| && Strip(items[i]) == x
  {
    if items != [] {
      CleanItemsMembers(items[1..]);
      StripIdempotent(items[0]);
      forall x | x != "" && (exists i :: 0 <= i < |items| && Strip(items[i]) == x)
        ensures x in CleanItems(items)
      {
        var i :| 0 <= i < |items| && Strip(items[i]) == x;
        if i > 0 {
          assert Strip(items[1..][i - 1]) == x;
        }
      }
      forall x | x in CleanItems(items[1..])
        ensures exists i :: 0 <= i < |items| && Strip(items[i]) == x
      {
        var i :| 0 <= i < |items[1..]| && Strip(items[1..][i]) == x;
        assert Strip(items[i + 1]) == x;
      }
    }
  }

  /** Every parsed language is non-empty and trimmed, and a non-empty setting is
      read from its own items only. */
  lemma ParseLanguagesSpec(setting: string)
    ensures forall x :: x in ParseLanguages(setting) ==> Trimmed(x)
    ensures setting != "" ==> forall x :: x in ParseLanguages(setting) <==>
      x != "" && exists i :: 0 <= i < |Split(setting, ',')| && Strip(Split(setting, ',')[i]) == x
  {
    if setting != "" {
      assert ParseLanguages(setting) == CleanItems(Split(setting, ','));
      CleanItemsMembers(Split(setting, ','));
    } else {
      forall x | x in DefaultLanguages ensures Trimmed(x) {
        DefaultLanguageTrimmed(x);
      }
    }
  }

  lemma DefaultLanguageTrimmed(x: string)
    requires x in DefaultLanguages
    ensures Trimmed(x)
  {
    var i :| 0 <= i < |DefaultLanguages| && DefaultLanguages[i] == x;
    assert x != "" && 'A' <= x[0] <= 'Z' && 'a' <= x[|x| - 1] <= 'z';
    StripUntouched(x);
  }

  /** Writing a list of trimmed, comma-free languages into the setting and parsing
      it gives the list back. */
  lemma {:induction false} ParseLanguagesRoundTrip(langs: seq<string>)
    requires |langs| >= 1
    requires forall i :: 0 <= i < |langs| ==> Trimmed(langs[i]) && ',' !in langs[i]
    ensures ParseLanguages(Join(langs, ",")) == langs
  {
    SplitJoin(langs, ',');
    assert Join(langs, ",") != "" by {
      JoinStartsWithFirst(langs, ",");
    }
    CleanTrimmed(langs);
  }

  lemma {:induction false} JoinStartsWithFirst(xs: seq<string>, sep: string)
    requires |xs| >= 1
    ensures StartsWith(Join(xs, sep), xs[0])
  {
    if |xs| > 1 {
      assert Join(xs, sep)[..|xs[0]|] == xs[0];
    }
  }

  lemma {:induction false} CleanTrimmed(items: seq<string>)
    requires forall i :: 0 <= i < |items| ==> Trimmed(items[i])
    ensures CleanItems(items) == items
  {
    if items != [] {
      CleanTrimmed(items[1..]);
      assert [items[0]] + items[1..] == items;
    }
  }

  /** The convert button: enabled, and its help text. */
  datatype Button = Button(enabled: bool, help: string)

  const PleaseSelect: string := "Please select"
  const NoDocuments: string := PleaseSelect + " documents to process"
  const NoBucket: string := PleaseSelect + " an output bucket"
  const NoLanguages: string := PleaseSelect + " at least one language for translation"

  /** The button state for `selected` chosen documents, the output bucket (empty
      when none is chosen) and the chosen languages. */
  function ConvertButton(selected: nat, outputBucket: string, languages: seq<string>): (b: Button)
    ensures b.enabled <==> selected > 0 && outputBucket != "" && |languages| > 0
    ensures b.enabled ==> b.help == "Translate selected documents to: " + Join(languages, ", ")
    ensures selected == 0 ==> b.help == NoDocuments
    ensures selected > 0 && outputBucket == "" ==> b.help == NoBucket
    ensures selected > 0 && outputBucket != "" && |languages| == 0 ==> b.help == NoLanguages
  {
    var canConvert := selected > 0 && outputBucket != "" && |languages| > 0;
    if canConvert then Button(true, "Translate selected documents to: " + Join(languages, ", "))
    else if selected == 0 then Button(false, NoDocuments)
    else if outputBucket == "" then Button(false, NoBucket)
    else Button(false, NoLanguages)
  }

  /** The help text asks the user to select something exactly when the button is
      disabled. */
  lemma ConvertButtonHelp(selected: nat, outputBucket: string, languages: seq<string>)
    ensures var b := ConvertButton(selected, outputBucket, languages);
      !b.enabled <==> StartsWith(b.help, PleaseSelect)
  {
    var b := ConvertButton(selected, outputBucket, languages);
    if b.enabled {
      var head := "Translate selected documents to: ";
      assert b.help == head + Join(languages, ", ");
      assert b.help[0] == head[0] == 'T';
    } else {
      assert b.help[..|PleaseSelect|] == PleaseSelect;
    }
  }
}
