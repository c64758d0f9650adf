/** The name/value list (libnv's nvlist_t) as the pfsync code sees it: a map
    from names to typed values. Only the four value kinds the code uses are
    modelled; packing, unpacking, ownership and the library's error state
    are not. */
module Nv {
  import opened Common

  datatype Value =
    | Number(n: Uint64)
    | Binary(bytes: seq<Byte>)
    | String(s: string)
    | Nested(nvl: map<string, Value>)

  type Nvlist = map<string, Value>

  /** nvlist_exists_number */
  predicate HasNumber(nvl: Nvlist, name: string) { name in nvl && nvl[name].Number? }
  /** nvlist_exists_binary */
  predicate HasBinary(nvl: Nvlist, name: string) { name in nvl && nvl[name].Binary? }
  /** nvlist_exists_string */
  predicate HasString(nvl: Nvlist, name: string) { name in nvl && nvl[name].String? }
  /** nvlist_exists_nvlist */
  predicate HasNvlist(nvl: Nvlist, name: string) { name in nvl && nvl[name].Nested? }

  /** nvlist_get_number */
  function GetNumber(nvl: Nvlist, name: string): Uint64
    requires HasNumber(nvl, name)
  {
    nvl[name].n
  }

  /** nvlist_get_binary, with the length it reports */
  function GetBinary(nvl: Nvlist, name: string): seq<Byte>
    requires HasBinary(nvl, name)
  {
    nvl[name].bytes
  }

  /** nvlist_get_string */
  function GetString(nvl: Nvlist, name: string): string
    requires HasString(nvl, name)
  {
    nvl[name].s
  }

  /** nvlist_get_nvlist */
  function GetNvlist(nvl: Nvlist, name: string): Nvlist
    requires HasNvlist(nvl, name)
  {
    nvl[name].nvl
  }
}
