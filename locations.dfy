/**
 * Where a contact lives: the file that holds it and, for sources that know it,
 * the 0-based line within that file. Both contact sources return these from
 * `locations` (src/contact_list.rs:46-52, src/vcards.rs:47-67).
 */
module Locations {
  import opened Wrappers

  datatype Location = Location(path: string, line: Option<nat>)
}
