/** The sort key chosen on the command line. */
module Args {

  /** `SortBy`: the four orders the `processes` command offers. */
  datatype SortBy = Cpu | Memory | Pid | Name
}
