/** The translation helpers: the current locale (persisted under the
    browser-storage key "locale"), dotted-key lookup in the message catalogs
    and placeholder substitution. The catalogs' contents are a parameter. */
module FrontLocales {
  import opened Common
  import opened Text

  /** A catalog entry: a message, or a nested table of entries. */
  datatype Messages = Message(text: string) | Table(entries: map<string, Messages>)

  const DefaultLocale: string := "zh-CN"

  /** `value?.[k]` on a catalog value: a table's entry, or nothing. */
  function Step(value: Option<Messages>, k: string): (r: Option<Messages>)
    ensures r.Some? ==> value.Some? && value.value.Table? && k in value.value.entries
  {
    match value
    case Some(Table(entries)) => if k in entries then Some(entries[k]) else None
    case _ => None
  }

  /** The value reached by following `keys` from `value`. */
  function Walk(value: Option<Messages>, keys: seq<string>): Option<Messages>
    decreases keys
  {
    if keys == [] then value else Walk(Step(value, keys[0]), keys[1..])
  }

  /** A missing value stays missing whatever keys follow. */
  lemma {:induction false} WalkFromNothing(keys: seq<string>)
    ensures Walk(None, keys) == None
    decreases keys
  {
    if keys != [] {
      WalkFromNothing(keys[1..]);
    }
  }

  /** `value || key`: a missing value or an empty message gives the key
      itself; anything else, a table included, is returned as found. */
  function OrKey(value: Option<Messages>, key: string): (r: Messages)
    ensures value.Some? && value.value != Message("") ==> r == value.value
    ensures value.None? || value.value == Message("") ==> r == Message(key)
  {
    if value.None? || value.value == Message("") then Message(key) else value.value
  }

  /** What t(key) returns in locale `locale`. */
  function Translate(catalogs: map<string, Messages>, locale: string, key: string): Messages {
    var start := if locale in catalogs then Some(catalogs[locale]) else None;
    OrKey(Walk(start, Split(key, '.')), key)
  }

  /** An unknown locale translates every key to itself. */
  lemma UnknownLocale(catalogs: map<string, Messages>, locale: string, key: string)
    requires locale !in catalogs
    ensures Translate(catalogs, locale, key) == Message(key)
  {
    WalkFromNothing(Split(key, '.'));
  }

  /** A key without dots is looked up at the top of the catalog: a found
      entry other than the empty message is the translation. */
  lemma TopLevelKey(catalogs: map<string, Messages>, locale: string, key: string)
    requires '.' !in key && locale in catalogs && catalogs[locale].Table?
    requires key in catalogs[locale].entries && catalogs[locale].entries[key] != Message("")
    ensures Translate(catalogs, locale, key) == catalogs[locale].entries[key]
  {
    SplitNoSeparator(key, '.');
    var start := Some(catalogs[locale]);
    assert [key][1..] == [];
    assert Walk(start, [key]) == Walk(Step(start, key), []);
  }

  /** A nested key walks one table per segment. */
  lemma NestedKey(table: map<string, Messages>, a: string, b: string, text: string)
    requires '.' !in a && '.' !in b && text != ""
    requires a in table && table[a].Table? && b in table[a].entries && table[a].entries[b] == Message(text)
    ensures Translate(map[DefaultLocale := Table(table)], DefaultLocale, a + "." + b) == Message(text)
  {
    var key := a + "." + b;
    SplitTwo(a, b, '.');
    var start := Some(Table(table));
    assert [a, b][1..] == [b] && [b][1..] == [];
    assert Walk(start, [a, b]) == Walk(Step(start, a), [b]);
    assert Walk(Step(start, a), [b]) == Walk(Step(Step(start, a), b), []);
  }

  /** The empty message is shown only for the empty key: a found empty
      message falls back to the key. */
  lemma EmptyOnlyForEmptyKey(catalogs: map<string, Messages>, locale: string, key: string)
    requires Translate(catalogs, locale, key) == Message("")
    ensures key == ""
  {
  }

  /** Replace the first `{name}` by the value, parameter by parameter in
      order, starting from `message`. */
  function Substitute(message: string, params: seq<(string, string)>): string
    decreases params
  {
    if params == [] then message
    else Substitute(ReplaceFirst(message, "{" + params[0].0 + "}", params[0].1), params[1..])
  }

  /** What formatMessage returns: the translation with its placeholders
      filled in; `None` when the translation is a table and there is a
      parameter, for which the page would raise an error. */
  function Format(catalogs: map<string, Messages>, locale: string, key: string, params: seq<(string, string)>)
    : (r: Option<Messages>)
    ensures params == [] ==> r == Some(Translate(catalogs, locale, key))
    ensures r.None? <==> params != [] && Translate(catalogs, locale, key).Table?
  {
    match Translate(catalogs, locale, key)
    case Message(text) => Some(Message(Substitute(text, params)))
    case Table(_) => if params == [] then Some(Translate(catalogs, locale, key)) else None
  }

  /** A parameter whose placeholder does not occur changes nothing. */
  lemma AbsentPlaceholder(message: string, name: string, value: string, rest: seq<(string, string)>)
    requires !Contains(message, "{" + name + "}")
    ensures Substitute(message, [(name, value)] + rest) == Substitute(message, rest)
  {
    ReplaceFirstAbsent(message, "{" + name + "}", value);
    assert ([(name, value)] + rest)[1..] == rest;
  }

  /** Only the first occurrence of a placeholder is filled: the text after
      it is carried over unchanged. */
  lemma FirstOccurrenceOnly(message: string, name: string, value: string)
    requires Contains(message, "{" + name + "}")
    ensures var pat := "{" + name + "}";
            var i := IndexOf(message, pat).value;
            var r := Substitute(message, [(name, value)]);
            r == message[..i] + value + message[i + |pat|..]
  {
    var pat := "{" + name + "}";
    assert [(name, value)][1..] == [];
    assert Substitute(message, [(name, value)]) == ReplaceFirst(message, pat, value);
  }

  /** The module state: the current locale and the stored preference. */
  class Locales {
    const catalogs: map<string, Messages>
    var current: string
    var stored: Option<string>

    /** Module load: the stored locale, or zh-CN when none (or an empty
        one) is stored. */
    constructor(catalogs: map<string, Messages>, stored: Option<string>)
      ensures this.catalogs == catalogs && this.stored == stored
      ensures current == if stored.Some? && stored.value != "" then stored.value else DefaultLocale
    {
      this.catalogs := catalogs;
      this.stored := stored;
      current := if stored.Some? && stored.value != "" then stored.value else DefaultLocale;
    }

    /** setLocale: the locale becomes current and is stored. */
    method SetLocale(locale: string)
      modifies this
      ensures current == locale && stored == Some(locale)
    {
      current := locale;
      stored := Some(locale);
    }

    method GetLocale() returns (locale: string)
      ensures locale == current
    {
      locale := current;
    }

    /** t: split the key at dots and walk the current catalog one segment at
        a time. */
    method T(key: string) returns (r: Messages)
      ensures r == Translate(catalogs, current, key)
    {
      var keys := Split(key, '.');
      var value := if current in catalogs then Some(catalogs[current]) else None;
      ghost var start := value;
      var i := 0;
      while i < |keys|
        invariant 0 <= i <= |keys|
        invariant Walk(value, keys[i..]) == Walk(start, keys)
      {
        assert keys[i..][1..] == keys[i + 1..];
        value := Step(value, keys[i]);
        i := i + 1;
      }
      r := if value.None? || value.value == Message("") then Message(key) else value.value;
    }

    /** formatMessage: t(key), then each parameter's first placeholder
        replaced in order; `None` where the page would raise an error. */
    method FormatMessage(key: string, params: seq<(string, string)>) returns (r: Option<Messages>)
      ensures r == Format(catalogs, current, key, params)
    {
      var message := T(key);
      if params == [] {
        return Some(message);
      }
      if message.Table? {
        return None;
      }
      var text := message.text;
      var i := 0;
      while i < |params|
        invariant 0 <= i <= |params|
        invariant Substitute(text, params[i..]) == Substitute(message.text, params)
      {
        assert params[i..][1..] == params[i + 1..];
        text := ReplaceFirst(text, "{" + params[i].0 + "}", params[i].1);
        i := i + 1;
      }
      r := Some(Message(text));
    }
  }
}
