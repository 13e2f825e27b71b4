/** The client's entity values the core works with. */
module Entity {
  import opened Wrappers
  import opened JavaNumbers

  /** A topic name and, for a partitioned topic, its partition id. */
  datatype Topic = Topic(text: string, partition: Option<int32>) {
    predicate HasPartition() {
      partition.Some?
    }
  }

  /** A broker's host and TCP port, compared by value. */
  datatype Address = Address(host: string, port: int32)
}
