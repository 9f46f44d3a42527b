/** Process-wide constants of the bot (src/config.rs). */
module Config {

  /** The command prefix every command message starts with. */
  const PREFIX: string := "<"

  /** Rust's `u64` (and `usize` on a 64-bit target). */
  type U64 = x: int | 0 <= x < 0x1_0000_0000_0000_0000

  /** Discord user identifiers are `u64` values. */
  type UserId = U64

  /** Visual treatment of a default reply (`EmbedType`); colours are left out. */
  datatype EmbedType = Success | Failure | Confirmation | Warning

  /** A default reply: an embed whose author line is the treatment's name
      followed by "!", carrying `description` as its body. */
  datatype Reply = Reply(description: string, embedType: EmbedType)

  /** An embed field: its name, its value and its `inline` flag. */
  datatype Field = Field(name: string, value: string, inline: bool)
}
