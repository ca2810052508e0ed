/** The configuration fallback both scripts share (`get_conf_param`): a value read from the
    configuration file is used unless it is empty, in which case the default is used. The
    list-valued settings are split on newlines. Reading the file is not part of this model:
    the raw text of a setting is a parameter. */
module Config {
  import opened Text

  /** `result or default_value`: Python treats the empty string as false. */
  function ConfParam(raw: string, default: string): (r: string)
    ensures raw != [] ==> r == raw
    ensures raw == [] ==> r == default
    ensures r == [] ==> raw == [] && default == []
  {
    if raw == [] then default else raw
  }

  /** A setting read as a list, one entry per line (`get_conf_param(...).split('\n')`). */
  function ListParam(raw: string, default: string): (entries: seq<string>)
    ensures |entries| >= 1
  {
    Split(ConfParam(raw, default), "\n")
  }

  /** The entries of a list setting hold no newline, and joining them with newlines gives
      back the setting (or its default, when the setting is empty). */
  lemma ListParamRoundTrip(raw: string, default: string, j: nat)
    requires j < |ListParam(raw, default)|
    ensures !Contains(ListParam(raw, default)[j], "\n")
    ensures Join(ListParam(raw, default), "\n") == (if raw == [] then default else raw)
  {
    SplitPartFree(ConfParam(raw, default), "\n", j);
    SplitJoin(ConfParam(raw, default), "\n");
  }

  /** An empty list setting whose default is also empty becomes the one-entry list `['']`,
      and the empty entry occurs in every string. */
  lemma EmptyListParam(default: string, s: string)
    requires default == []
    ensures ListParam([], default) == [[]]
    ensures Contains(s, ListParam([], default)[0])
  {
    PartsSingle([], "\n", 0);
    assert OccursAt([], s, 0);
  }
}
