/**
  The older front end of the classifier (pls-classifier/src/lookup.rs): the
  rule value found for a file name is returned as it is, and `gray` stands in
  when no rule matches or a rule is invalid.
 */
module NameLookup {
  import opened Wrappers
  import Regex
  import Config
  import ConfigProofs

  /** `DEFAULT_COLOR`. */
  const DefaultColor: string := "gray"

  /** `ConfigurationLookup`: the string-valued front end over the rule store. */
  class ConfigurationLookup {
    const config: Config.Configuration

    /** `ConfigurationLookup::new`: opens the rule store. */
    constructor (disk: Config.ConfFile)
      ensures fresh(config) && config.file == disk
      ensures disk.contents.Some? ==> config.entries == Config.LoadEntries(disk.contents.value) && !config.dirty
      ensures disk.contents.None? ==> config.entries == Config.DefaultEntries() && config.dirty
    {
      config := new Config.Configuration(disk);
    }

    /**
      `get_color`: the value of the first matching rule, or `gray` when the
      lookup finds none or fails on an invalid pattern.
     */
    function GetColor(file: string, re: Regex.Engine): (c: string)
      reads config
      ensures c == DefaultColor || exists e | e in config.entries :: e.Pair? && e.value == c
    {
      ColorNameSound(config.entries, file, re);
      ColorName(Config.FindValue(config.entries, file, re))
    }
  }

  /** What `get_color` makes of the answer of `get_value`: the value found, or `gray` when there is none or a rule is invalid. */
  function ColorName(answer: Result<Option<string>, Regex.Error>): (c: string)
    ensures c != DefaultColor ==> answer == Ok(Some(c))
  {
    match answer
    case Ok(Some(v)) => v
    case Ok(None) => DefaultColor
    case Err(_) => DefaultColor
  }

  /** The answer is `gray` or the value of one of the rules. */
  lemma ColorNameSound(es: seq<Config.Entry>, key: string, re: Regex.Engine)
    ensures var c := ColorName(Config.FindValue(es, key, re));
      c == DefaultColor || exists e | e in es :: e.Pair? && e.value == c
  {
    ConfigProofs.FindValueSound(es, key, re);
    var answer := Config.FindValue(es, key, re);
    if answer.Ok? && answer.value.Some? {
      var i :| ConfigProofs.FirstStop(es, key, re, i) && answer == ConfigProofs.Stop(es[i], re);
      assert es[i] in es;
    }
  }

  /** Where several patterns match, the earliest one's value is returned. */
  lemma ColorNameFirstMatch(es: seq<Config.Entry>, key: string, re: Regex.Engine, i: int)
    requires ConfigProofs.FirstStop(es, key, re, i) && re.compiles(es[i].pattern)
    ensures ColorName(Config.FindValue(es, key, re)) == es[i].value
  {
    ConfigProofs.FindValueAt(es, key, re, i);
  }

  /** A file name that no pattern matches gets `gray`. */
  lemma ColorNameNoMatch(es: seq<Config.Entry>, key: string, re: Regex.Engine)
    requires forall j | 0 <= j < |es| :: Config.PassesOver(es[j], key, re)
    ensures ColorName(Config.FindValue(es, key, re)) == DefaultColor
  {
    ConfigProofs.FindValueNone(es, key, re);
  }

  /** A pattern that does not compile, reached before any match, gives `gray` rather than a failure. */
  lemma ColorNameInvalidRule(es: seq<Config.Entry>, key: string, re: Regex.Engine, i: int)
    requires ConfigProofs.FirstStop(es, key, re, i) && !re.compiles(es[i].pattern)
    ensures ColorName(Config.FindValue(es, key, re)) == DefaultColor
  {
    ConfigProofs.FindValueAt(es, key, re, i);
  }

  /** Under the default rules a file gets `yellow`, `orange` or `gray`. */
  lemma DefaultRuleNames(key: string, re: Regex.Engine)
    ensures ColorName(Config.FindValue(Config.DefaultEntries(), key, re)) in {"yellow", "orange", DefaultColor}
  {
    ColorNameSound(Config.DefaultEntries(), key, re);
  }
}
