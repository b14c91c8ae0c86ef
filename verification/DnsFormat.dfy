/** Numbers of the DNS message format (RFC 1035, RFC 3596) and the resolver's answer limit. */
module DnsFormat {

  const HEADER_SIZE: nat := 12
  const QUESTION_SIZE: nat := 4
  /** Type, class, time to live and data length of a resource record. */
  const FIXED_SIZE: nat := 10

  const TYPE_A: nat := 1
  const TYPE_AAAA: nat := 28
  const CLASS_IN: nat := 1

  /** Answers kept per reply, and rows of the caller's address table. */
  const MAX_ANSWERS: nat := 20
}
