/** Letters and their case, in ASCII. */
module Characters {

  predicate IsUpper(c: char) { 'A' <= c <= 'Z' }

  predicate IsLower(c: char) { 'a' <= c <= 'z' }

  /** c | 0x20 for an upper case letter. */
  function Lower(c: char): char { if IsUpper(c) then (c as int + 32) as char else c }
}
