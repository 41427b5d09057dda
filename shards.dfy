/** A row of the cat-shards API in JSON form. The API returns its values
    as strings; `node` is `null` for a shard that is not assigned, and a
    row without the field at all is also allowed for. */
module Shards {
  datatype NodeField = Absent | Null | Named(name: string)

  datatype Shard = Shard(index: string, shard: string, prirep: string, node: NodeField)
}
