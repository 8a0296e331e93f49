/** Where user programs live (include/task.h). */
module UserRange {
  const USER_BASE := 0x0200_0000
  const USER_LIMIT := 0x0500_0000
}
