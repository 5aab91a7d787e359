/** The closed word lists of the read-only SQL check. */
module SqlWords {
  import opened Text

  datatype Words = Words(structural: set<text>, forbidden: set<text>, forbiddenTypes: set<text>, callable: set<text>)

  function TextSet(words: set<string>): set<text> { set w | w in words :: Txt(w) }

  const SQL_WORDS := Words(TextSet(STRUCTURAL_KEYWORDS), TextSet(FORBIDDEN_KEYWORDS), TextSet(FORBIDDEN_TYPES),
                           TextSet(ALLOWED_FUNCTIONS))

  const STRUCTURAL_KEYWORDS: set<string> := {
    "all", "and", "any", "array", "as", "asc", "at", "between", "by", "case", "cast", "coalesce", "collate", "cross",
    "desc", "distinct", "else", "end", "except", "exists", "extract", "false", "fetch", "filter", "first", "from",
    "full", "greatest", "group", "grouping", "having", "ilike", "in", "inner", "intersect", "interval", "is", "join",
    "last", "lateral", "least", "left", "like", "limit", "natural", "not", "null", "nullif", "nulls", "offset", "on",
    "or", "order", "outer", "over", "overlay", "partition", "position", "recursive", "right", "row", "rows",
    "select", "similar", "some", "substring", "then", "time", "trim", "true", "union", "using", "values", "when",
    "where", "with", "within", "zone"
  }

  const FORBIDDEN_KEYWORDS: set<string> := {
    "alter", "analyze", "attach", "begin", "call", "checkpoint", "close", "cluster", "comment", "commit", "copy",
    "create", "deallocate", "declare", "definer", "delete", "detach", "discard", "do", "drop", "execute", "function",
    "grant", "import", "insert", "into", "listen", "load", "lock", "merge", "move", "notify", "open", "policy",
    "prepare", "procedure", "refresh", "reindex", "reset", "returning", "revoke", "rollback", "rule", "savepoint",
    "security", "set", "start", "trigger", "truncate", "unlisten", "update", "vacuum"
  }

  const FORBIDDEN_TYPES: set<string> := {
    "regclass", "regcollation", "regconfig", "regdictionary", "regnamespace", "regoper", "regoperator", "regproc",
    "regprocedure", "regrole", "regtype"
  }

  const ALLOWED_FUNCTIONS: set<string> := {
    "abs", "age", "array_agg", "array_append", "array_cat", "array_length", "array_lower", "array_ndims",
    "array_position", "array_positions", "array_prepend", "array_remove", "array_replace", "array_to_string",
    "array_upper", "ascii", "avg", "bit_length", "bool_and", "bool_or", "btrim", "cardinality", "cast", "cbrt",
    "ceil", "ceiling", "char_length", "character_length", "chr", "coalesce", "concat", "concat_ws", "count",
    "cume_dist", "date_part", "date_trunc", "dense_rank", "div", "every", "exp", "extract", "first_value", "floor",
    "format", "gcd", "greatest", "initcap", "json_agg", "json_array_length", "json_extract_path",
    "json_extract_path_text", "json_typeof", "jsonb_agg", "jsonb_array_length", "jsonb_build_array",
    "jsonb_build_object", "jsonb_extract_path", "jsonb_extract_path_text", "jsonb_object_keys", "jsonb_pretty",
    "jsonb_strip_nulls", "jsonb_typeof", "justify_days", "justify_hours", "justify_interval", "lag", "last_value",
    "lcm", "lead", "least", "left", "length", "ln", "log", "log10", "lower", "lpad", "ltrim", "make_date",
    "make_time", "make_timestamp", "make_timestamptz", "max", "md5", "min", "mod", "now", "nth_value", "ntile",
    "nullif", "octet_length", "percent_rank", "position", "power", "rank", "regexp_match", "regexp_matches",
    "regexp_replace", "regexp_split_to_array", "repeat", "replace", "reverse", "right", "round", "row_number",
    "rpad", "rtrim", "sign", "split_part", "sqrt", "starts_with", "stddev", "stddev_pop", "stddev_samp",
    "string_agg", "string_to_array", "strpos", "substr", "substring", "sum", "to_char", "to_date", "to_json",
    "to_jsonb", "to_number", "to_timestamp", "translate", "trim", "trunc", "unnest", "upper", "var_pop", "var_samp",
    "variance", "width_bucket"
  }
}
